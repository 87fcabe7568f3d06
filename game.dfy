/** The module-level state of game.js as one object, with its
    state-changing functions as methods. Each method is proved to have the
    effect of the matching function of the Bubbles and Round modules, so the
    properties proved there hold of the object. */
module Game {
  import opened Selection
  import opened Bubbles
  import opened Round

  class Game {
    const screen: Screen
    /** `dragonPos`: set once from the canvas size and never updated. */
    const dragonX: real
    const dragonY: real

    var score: int
    var bubbles: seq<Bubble>
    var lastSpawn: int
    var gameTimer: int
    var gameRunning: bool

    function Snapshot(): State
      reads this
    {
      State(score, bubbles, lastSpawn, gameTimer, gameRunning)
    }

    /** The page load: a canvas of the window's size, the dragon at its
        centre, a fresh round. */
    constructor (width: nat, height: nat)
      ensures screen == Screen(width, height)
      ensures dragonX == DragonX(screen) && dragonY == DragonY(screen)
      ensures Snapshot() == Initial()
    {
      screen := Screen(width, height);
      dragonX := width as real / 2.0;
      dragonY := height as real / 2.0;
      score, gameTimer, gameRunning := 0, START_TIME, true;
      bubbles := [];
      lastSpawn := 0;
    }

    /** `spawnBubble`, with the four `Math.random()` results passed in. */
    method SpawnBubble(d: Draws)
      requires ValidDraws(d)
      modifies this`bubbles
      ensures bubbles == old(bubbles) + [Spawned(d, screen.width)]
    {
      var isEmoji := d.coin < EMOJI_CHANCE;
      var table := if isEmoji then EMOJIS else WORDS;
      FloorIndex(d.pick, |table|);
      var text := table[(d.pick * |table| as real).Floor];
      assert text == Pick(table, d.pick);
      var x, y := d.rx * screen.width as real, SPAWN_Y;
      var speed := d.rs * SPEED_SPREAD + MIN_SPEED;
      var kind := if isEmoji then Emoji else Word;
      var spawned := Spawned(d, screen.width);
      assert spawned.text == text;
      assert spawned.x == x;
      assert spawned.speed == speed;
      assert spawned.kind == kind;
      bubbles := bubbles + [Bubble(text, x, y, speed, kind, BUBBLE_RADIUS)];
    }

    /** `updateBubbles`: every bubble falls by its speed, in place, then the
        ones below the cull line are filtered out. */
    method UpdateBubbles()
      modifies this`bubbles
      ensures bubbles == Update(old(bubbles), screen.height)
    {
      var i := 0;
      while i < |bubbles|
        invariant i <= |bubbles| == |old(bubbles)|
        invariant forall k :: 0 <= k < i ==> bubbles[k] == Fallen(old(bubbles)[k])
        invariant forall k :: i <= k < |bubbles| ==> bubbles[k] == old(bubbles)[k]
      {
        bubbles := bubbles[i := bubbles[i].(y := bubbles[i].y + bubbles[i].speed)];
        i := i + 1;
      }
      assert bubbles == Advance(old(bubbles));
      var moved := bubbles;
      var limit := CullLimit(screen.height);
      var kept := [];
      for j := 0 to |moved|
        invariant kept == Select(moved[..j], OnScreen(moved, limit)[..j])
      {
        var keep := OnScreen(moved, limit);
        assert moved[..j + 1] == moved[..j] + [moved[j]];
        assert keep[..j + 1] == keep[..j] + [keep[j]];
        SelectAppend(moved[..j], keep[..j], [moved[j]], [keep[j]]);
        if moved[j].y < limit {
          kept := kept + [moved[j]];
        }
      }
      assert moved[..|moved|] == moved;
      assert OnScreen(moved, limit)[..|moved|] == OnScreen(moved, limit);
      bubbles := kept;
    }

    /** `updateScoreAndHit`: `forEach` over the list, which visits the
        original number of positions but only those still present, and
        `splice(idx, 1)` on a hit, so that the bubble shifted into the
        visited slot is not examined in this pass. */
    method UpdateScoreAndHit()
      modifies this`bubbles, this`score
      ensures bubbles == Pass(old(bubbles), old(score), dragonX, dragonY).survivors
      ensures score == Pass(old(bubbles), old(score), dragonX, dragonY).score
    {
      ghost var goal := Pass(bubbles, score, dragonX, dragonY);
      ghost var consumed: seq<Bubble> := [];
      PassStarted(bubbles, score, dragonX, dragonY);
      var n := |bubbles|;
      for idx := 0 to n
        invariant |bubbles| <= n
        invariant InProgress(goal, bubbles, idx, consumed, score, dragonX, dragonY)
      {
        if idx < |bubbles| {
          var b := bubbles[idx];
          if Collides(b, dragonX, dragonY) {
            ProgressHit(goal, bubbles, idx, consumed, score, dragonX, dragonY);
            if b.kind == Emoji {
              score := if score - PENALTY > 0 then score - PENALTY else 0;
            } else {
              score := score + REWARD;
            }
            bubbles := bubbles[..idx] + bubbles[idx + 1..];
            consumed := consumed + [b];
          } else {
            ProgressMiss(goal, bubbles, idx, consumed, score, dragonX, dragonY);
          }
        } else {
          ProgressPast(goal, bubbles, idx, consumed, score, dragonX, dragonY);
        }
      }
      ProgressPast(goal, bubbles, n, consumed, score, dragonX, dragonY);
    }

    /** `gameLoop(ts)` without its drawing and its rescheduling. */
    method GameLoop(ts: int, d: Draws)
      requires dragonX == DragonX(screen) && dragonY == DragonY(screen)
      requires ValidDraws(d)
      modifies this
      ensures Snapshot() == Frame(old(Snapshot()), ts, d, screen)
    {
      if !gameRunning {
        return;
      }
      UpdateBubbles();
      UpdateScoreAndHit();
      if ts - lastSpawn > SPAWN_INTERVAL {
        SpawnBubble(d);
        lastSpawn := ts;
      }
    }

    /** `endGame` without its audio and page updates. */
    method EndGame()
      modifies this`gameRunning
      ensures !gameRunning
    {
      gameRunning := false;
    }

    /** The body of the one-second interval callback. */
    method TimerTick()
      modifies this`gameTimer, this`gameRunning
      ensures Snapshot() == Tick(old(Snapshot()))
    {
      if !gameRunning {
        return;
      }
      gameTimer := gameTimer - 1;
      if gameTimer <= 0 {
        EndGame();
      }
    }
  }

  /** Where the loop of `updateScoreAndHit` stands in a pass that will end in `goal`: the
      list is now `s`, the next position to visit is `idx`, the hits so far
      are `consumed`, and the score is `score`. */
  ghost predicate InProgress(goal: Resolution, s: seq<Bubble>, idx: nat, consumed: seq<Bubble>,
                             score: int, px: real, py: real)
  {
    if idx <= |s| then
      var rest := Pass(s[idx..], score, px, py);
      goal == Resolution(s[..idx] + rest.survivors, consumed + rest.consumed, rest.score)
    else goal == Resolution(s, consumed, score)
  }

  lemma PassStarted(s: seq<Bubble>, score: int, px: real, py: real)
    ensures InProgress(Pass(s, score, px, py), s, 0, [], score, px, py)
  {
    assert s[0..] == s && s[..0] == [];
  }

  /** Visiting a bubble that misses moves on to the next position. */
  lemma ProgressMiss(goal: Resolution, s: seq<Bubble>, idx: nat, consumed: seq<Bubble>,
                     score: int, px: real, py: real)
    requires InProgress(goal, s, idx, consumed, score, px, py)
    requires idx < |s| && !Collides(s[idx], px, py)
    ensures InProgress(goal, s, idx + 1, consumed, score, px, py)
  {
    PassMiss(s[idx..], score, px, py);
    assert s[idx..][1..] == s[idx + 1..];
    assert s[..idx + 1] == s[..idx] + [s[idx]];
  }

  /** Visiting a bubble that collides scores it, splices it out and moves on
      to the next position, past the bubble that took its slot. */
  lemma ProgressHit(goal: Resolution, s: seq<Bubble>, idx: nat, consumed: seq<Bubble>,
                    score: int, px: real, py: real)
    requires InProgress(goal, s, idx, consumed, score, px, py)
    requires idx < |s| && Collides(s[idx], px, py)
    ensures InProgress(goal, s[..idx] + s[idx + 1..], idx + 1, consumed + [s[idx]],
                       ApplyHit(score, s[idx]), px, py)
  {
    var t := s[..idx] + s[idx + 1..];
    var rest := s[idx..];
    if |rest| == 1 {
      PassLastHit(rest, score, px, py);
      assert t == s[..idx];
    } else {
      PassHit(rest, score, px, py);
      assert rest[1] == s[idx + 1] && rest[2..] == s[idx + 2..];
      assert t[..idx + 1] == s[..idx] + [s[idx + 1]];
      assert t[idx + 1..] == s[idx + 2..];
    }
  }

  /** Past the end of the list nothing is left to do. */
  lemma ProgressPast(goal: Resolution, s: seq<Bubble>, idx: nat, consumed: seq<Bubble>,
                     score: int, px: real, py: real)
    requires InProgress(goal, s, idx, consumed, score, px, py)
    requires idx >= |s|
    ensures InProgress(goal, s, idx + 1, consumed, score, px, py)
    ensures goal == Resolution(s, consumed, score)
  {
    if idx == |s| {
      PassEmpty(score, px, py);
      assert s[idx..] == [] && s[..idx] == s;
    }
  }
}
