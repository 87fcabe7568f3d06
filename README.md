# Firedragon round logic in Dafny

A model of the game-state logic in `game.js` of the Firedragon browser game.
Bubbles carrying an emoji or a lucky-word glyph fall down the canvas. A dragon
sits at the centre of the canvas and consumes the bubbles it touches, except
that the bubble right after one just consumed is checked only on a later frame. A word bubble earns 10 points. An emoji bubble costs 5 points, but the
score never goes below 0. A one-second countdown from 60 ends the round for
good.

The project has four modules:

- `Selection` (`selection.dfy`): keeping the elements of a sequence whose flag
  is set, in order, with the lemmas that say exactly which elements are kept.
- `Bubbles` (`bubbles.dfy`): the bubble entity and the work done each frame, as
  pure functions. This covers spawning from four random draws, falling and
  culling, the collision test, the score change of one hit, and one collision
  pass as the loop of `updateScoreAndHit` runs it.
- `Round` (`round.dfy`): the round state (score, bubbles, last spawn time,
  timer, running flag) as a value. It has one function for a frame, one for a
  timer tick and one for any interleaving of the two, with the lemmas about
  them.
- `Game` (`game.dfy`): the module-level state of `game.js` as a class. Its
  methods work the way game.js does: bubbles are moved in place, spliced out
  during the scan, and pushed on spawn. Each method is proved to have the effect
  of the matching function in `Bubbles` or `Round`.

The collision pass follows `updateScoreAndHit` exactly. `forEach` visits the original
number of positions but only those still present. `splice(idx, 1)` then shifts
the next bubble into the slot just visited, so that bubble is not examined in
this pass. `Bubbles.Verdicts` records, for each bubble, whether the pass removed
it, examined and kept it, or skipped it. `Bubbles.VerdictRule` proves that a
bubble is skipped exactly when the bubble before it was removed.

## Model

| member | source | states |
|---|---|---|
| Bubbles.Spawned | game.js:23-29 | the new bubble starts at y = -40 with radius 38 and a speed in [2, 4); x lies in [0, width]; it is an emoji exactly when the coin is below 0.6; its text comes from EMOJIS for an emoji and from WORDS for a word |
| Bubbles.Pick | game.js:25 | `floor(u * n)` indexes inside the table, so the glyph picked is one of the table's entries |
| Bubbles.UpdateBounded | game.js:34 | after the update every bubble left in the list has y < canvas height + 40 |
| Bubbles.UpdateExact | game.js:32-35 | the update keeps exactly the bubbles whose new y is above the cull line, in their original order; each keeps every field except y, which becomes old y + speed; the list never grows |
| Bubbles.CollidesIffWithinReach | game.js:88-91 | the squared test holds exactly when the Euclidean distance from the bubble to the dragon is below radius + 40 |
| Bubbles.ApplyHit | game.js:96-101 | a word adds 10; an emoji takes 5 off, or leaves 0 when fewer than 5 points remain; a non-negative score stays non-negative |
| Bubbles.ScoreAfterNonNegative | game.js:96-101 | starting from a non-negative score, no sequence of hits makes the score negative |
| Bubbles.VerdictRule | game.js:94-106 | in one pass, a bubble is skipped exactly when the bubble before it was removed; any other bubble is examined and removed exactly when it collides |
| Bubbles.PassExact | game.js:94-106 | the survivors are exactly the bubbles not removed, in their original order; the consumed bubbles are exactly the removed ones, in order |
| Bubbles.PassPartition | game.js:94-106 | the list shrinks by exactly the number of hits, and every bubble ends up either surviving or consumed, once |
| Bubbles.PassConsumedCollide | game.js:94-103 | every bubble the pass removes collides with the dragon |
| Bubbles.PassScoreNonNegative | game.js:96-101 | the score after a pass is non-negative when the score before it was |
| Bubbles.PassNoContact | game.js:94-106 | a pass in which nothing collides, the empty list included, leaves the list and the score unchanged |
| Bubbles.PassEmpty | game.js:94 | a pass over an empty list changes nothing |
| Bubbles.PassMiss | game.js:94-95 | a bubble that misses stays in place, and the pass continues with the next bubble |
| Bubbles.PassLastHit | game.js:94-103 | when the last bubble collides, it is scored and removed |
| Bubbles.PassHit | game.js:94-103 | a colliding bubble is scored and removed; the bubble after it takes its slot and is left unexamined; the pass continues after that bubble |
| Bubbles.PassSkipsShifted | game.js:94-103 | with two word bubbles both over the dragon, only the first is consumed, for +10; the second survives the pass |
| Round.SpawnGate | game.js:123-126 | a bubble is appended and lastSpawn becomes ts exactly when ts - lastSpawn > 1000; the bubbles already there are kept as they were; otherwise nothing changes |
| Round.SpawnGateTiming | game.js:123-126 | with lastSpawn at 0, a frame at 500 spawns nothing and keeps lastSpawn; a frame at 1001 spawns one bubble and records 1001 |
| Round.Frame | game.js:113-129 | a frame after the round has ended changes nothing; a frame while it runs leaves the timer and the running flag alone and updates lastSpawn only through the gate |
| Round.Tick | game.js:139-146 | a tick while running decreases the timer by exactly 1 and keeps the round running only while the timer stays above 0; a tick after the end changes nothing; score, bubbles and lastSpawn are never touched |
| Round.EndedIsTerminal | game.js:113-147 | once the round has ended, any sequence of frames and ticks leaves the whole state unchanged |
| Round.NeverRestarts | game.js:131-146 | a round that runs after some frames and ticks was running before them: once stopped, it stays stopped |
| Round.Countdown | game.js:139-146 | for any interleaving of frames and ticks, a running round with T seconds left runs until its T-th tick; before that the timer reads T minus the ticks so far, and from then on the round is over with the timer at 0 |
| Round.SixtySecondRound | game.js:18 | from the initial state, 60 ticks end the round with the timer at 0; a 61st tick changes nothing |
| Round.InitialInvariant | game.js:18-21 | the initial state satisfies the round invariant |
| Round.FrameInvariant | game.js:113-126 | a frame preserves the invariant: a non-negative score, a timer that is non-negative and positive while running, and only well-formed bubbles above the cull line |
| Round.TickInvariant | game.js:139-146 | a tick preserves the round invariant |
| Round.RunInvariant | game.js:113-147 | every interleaving of frames and ticks preserves the round invariant |
| Round.CaughtWord | game.js:88-103 | a word bubble 10 pixels from the dragon is caught, scores +10 and is removed |
| Round.DistantBubble | game.js:88-106 | a bubble far from the dragon survives, and the score is unchanged |
| Round.PenaltyClamped | game.js:96-97 | an emoji caught with 3 points on the board leaves 0 points, not -2 |
| Game.Game.constructor | game.js:13-21 | the dragon starts at the centre of the canvas, and the round starts fresh: score 0, no bubbles, lastSpawn 0, timer 60, running |
| Game.Game.SpawnBubble | game.js:23-30 | exactly one bubble, the one `Spawned` describes, is appended; no other field changes |
| Game.Game.UpdateBubbles | game.js:32-35 | the in-place move followed by the filter leaves exactly `Update` of the old list; no other field changes |
| Game.Game.UpdateScoreAndHit | game.js:93-107 | the index loop, which splices out each hit and still advances, leaves exactly the survivors and score of `Pass` |
| Game.Game.GameLoop | game.js:113-129 | the state afterwards is `Frame` of the state before |
| Game.Game.EndGame | game.js:131-132 | the running flag is switched off |
| Game.Game.TimerTick | game.js:139-146 | the state afterwards is `Tick` of the state before |
| Game.ProgressHit | game.js:94-103 | one visit to a colliding bubble moves the loop to the next index, one past the bubble shifted into the removed slot |

## Left out

- Drawing: the background, the bubbles, the dragon and the canvas clearing (game.js:37-86, 109-111, 115-119) only render the state. They never change it.
- Audio: the `Audio` objects and their `play`/`pause` calls are calls into the browser.
- Page updates: the score, timer and game-over text and the `classList` change are UI only.
- Scheduling: `requestAnimationFrame`, `setInterval`, `clearInterval` and the webcam `loadeddata` listener are host plumbing. A frame and a tick are methods the caller invokes. `Round.Run` takes any order of the two.
- Randomness: each `Math.random()` result is a parameter in [0, 1) (`Bubbles.Draws`). The model does not describe the distribution, so "60% emoji" and "uniform glyph" are stated only as which draws lead to which outcome.
- Floating point: coordinates and speeds are exact reals, and the collision test compares squares instead of taking `Math.sqrt`. Rounding in `y += speed` and in the square root is not modelled.
- Bubble identity: bubbles are values in a sequence, not shared objects. The in-place `b.y += b.speed` is modelled as replacing each element with its moved copy. No other code holds a bubble, so nothing can observe the difference.
- The first `gameLoop()` call passes no timestamp. In JavaScript that makes the spawn comparison false. The model takes `ts` as an integer in every call.
- `dragonPos` is fixed at the canvas centre, because nothing in game.js moves it.
- Round restart and window resizing do not exist in game.js.
- The dragon's reach is 40 (game.js:90). Spawn x ranges over [0, width) (game.js:26). The pass skips the bubble shifted into a removed slot (game.js:94-103).
