/** The falling bubbles of game.js: the entity, how one is spawned from the
    random draws, how a frame moves and culls them, the circle-overlap test
    against the dragon, and one collision-and-scoring pass. Everything here is
    a pure function on values; the class in game.dfy applies them to its
    fields. */
module Bubbles {
  import opened Selection

  /** The `type` field of a bubble: 'emoji' costs points, 'word' earns them. */
  datatype Kind = Emoji | Word

  datatype Bubble = Bubble(text: string, x: real, y: real, speed: real, kind: Kind, radius: real)

  /** The glyph tables at the top of game.js. */
  const EMOJIS: seq<string> := [
    "\U{26BD}", "\U{1F354}", "\U{1F3A7}", "\U{1F9CA}", "\U{1F9FC}",
    "\U{1F37A}", "\U{1F4A1}", "\U{1F4CE}", "\U{1F9FD}", "\U{1F9EF}"]
  const WORDS: seq<string> := [
    "\U{798F}", "\U{6625}", "\U{8CA1}", "\U{5B89}", "\U{65FA}",
    "\U{5409}", "\U{7965}", "\U{8CC0}", "\U{99AC}", "\U{5E74}"]

  const EMOJI_CHANCE: real := 0.6
  const SPAWN_Y: real := -40.0
  const BUBBLE_RADIUS: real := 38.0
  const MIN_SPEED: real := 2.0
  const SPEED_SPREAD: real := 2.0
  /** A bubble is dropped once its centre is this far below the bottom edge. */
  const CULL_MARGIN: real := 40.0
  /** The dragon's reach, added to the bubble's radius in the overlap test. */
  const DRAGON_REACH: real := 40.0
  const PENALTY: int := 5
  const REWARD: int := 10

  // ---------------------------------------------------------------------
  // Spawning

  /** The four `Math.random()` results that one spawn consumes, in order:
      the emoji/word coin, the glyph pick, the horizontal position and the
      speed. */
  datatype Draws = Draws(coin: real, pick: real, rx: real, rs: real)

  predicate UnitInterval(u: real) { 0.0 <= u < 1.0 }

  predicate ValidDraws(d: Draws)
  {
    UnitInterval(d.coin) && UnitInterval(d.pick) && UnitInterval(d.rx) && UnitInterval(d.rs)
  }

  /** `Math.floor(u * n)` for a draw `u` in [0, 1) is a valid index into a
      table of `n` entries. */
  lemma FloorIndex(u: real, n: nat)
    requires UnitInterval(u) && n > 0
    ensures 0 <= (u * n as real).Floor < n
  {
    assert 0.0 <= u * n as real < n as real by {
      assert u * n as real <= 1.0 * n as real;
      assert u * n as real != n as real;
    }
  }

  /** The glyph a draw picks from one table. */
  function Pick(table: seq<string>, u: real): (t: string)
    requires UnitInterval(u) && |table| > 0
    ensures t in table
  {
    FloorIndex(u, |table|);
    table[(u * |table| as real).Floor]
  }

  /** The bubble that `spawnBubble` pushes, on a canvas `width` pixels wide. */
  function Spawned(d: Draws, width: nat): (b: Bubble)
    requires ValidDraws(d)
    ensures b.y == SPAWN_Y && b.radius == BUBBLE_RADIUS
    ensures MIN_SPEED <= b.speed < MIN_SPEED + SPEED_SPREAD
    ensures 0.0 <= b.x <= width as real && (width > 0 ==> b.x < width as real)
    ensures b.kind == Emoji <==> d.coin < EMOJI_CHANCE
    ensures b.kind == Emoji ==> b.text in EMOJIS
    ensures b.kind == Word ==> b.text in WORDS
  {
    var isEmoji := d.coin < EMOJI_CHANCE;
    var text := if isEmoji then Pick(EMOJIS, d.pick) else Pick(WORDS, d.pick);
    assert 0.0 <= d.rx * width as real <= width as real by {
      assert d.rx * width as real <= 1.0 * width as real;
    }
    assert width > 0 ==> d.rx * width as real < width as real;
    Bubble(text, d.rx * width as real, SPAWN_Y, d.rs * SPEED_SPREAD + MIN_SPEED,
           if isEmoji then Emoji else Word, BUBBLE_RADIUS)
  }

  // ---------------------------------------------------------------------
  // Kinematics and culling

  /** One frame of descent for one bubble. */
  function Fallen(b: Bubble): Bubble
  {
    b.(y := b.y + b.speed)
  }

  /** Every bubble after one frame of descent, in the same order. */
  function Advance(s: seq<Bubble>): (r: seq<Bubble>)
    ensures |r| == |s|
  {
    seq(|s|, i requires 0 <= i < |s| => Fallen(s[i]))
  }

  /** The y beyond which a bubble has left a canvas `height` pixels high. */
  function CullLimit(height: nat): real
  {
    height as real + CULL_MARGIN
  }

  /** Which bubbles are still above `limit`. */
  function OnScreen(s: seq<Bubble>, limit: real): (keep: seq<bool>)
    ensures |keep| == |s|
  {
    seq(|s|, i requires 0 <= i < |s| => s[i].y < limit)
  }

  /** The filter step of `updateBubbles`. */
  function Cull(s: seq<Bubble>, limit: real): seq<Bubble>
  {
    Select(s, OnScreen(s, limit))
  }

  /** What `updateBubbles` does to the list. */
  function Update(s: seq<Bubble>, height: nat): seq<Bubble>
  {
    Cull(Advance(s), CullLimit(height))
  }

  /** After `updateBubbles`, every bubble is above the cull line. */
  lemma UpdateBounded(s: seq<Bubble>, height: nat)
    ensures forall b :: b in Update(s, height) ==> b.y < CullLimit(height)
  {
    var moved := Advance(s);
    SelectedValues(moved, OnScreen(moved, CullLimit(height)));
  }

  /** `updateBubbles` keeps, in their original order, exactly the bubbles
      whose new y is above the cull line, with y advanced by the bubble's
      speed and every other field as it was; it adds nothing. */
  lemma UpdateExact(s: seq<Bubble>, height: nat)
    ensures var r, idx := Update(s, height), SelectedIndices(OnScreen(Advance(s), CullLimit(height)));
      && |r| == |idx| <= |s|
      && StrictlyIncreasing(idx)
      && (forall k :: 0 <= k < |idx| ==>
            idx[k] < |s| &&
            r[k].y == s[idx[k]].y + s[idx[k]].speed &&
            r[k] == s[idx[k]].(y := r[k].y))
      && (forall j :: 0 <= j < |s| ==> (j in idx <==> s[j].y + s[j].speed < CullLimit(height)))
  {
    var moved := Advance(s);
    var keep := OnScreen(moved, CullLimit(height));
    SelectCharacterized(moved, keep);
    SelectPartition(moved, keep);
  }

  // ---------------------------------------------------------------------
  // Collision

  /** `collision(bubble, x, y)`, with the square root compared on both sides
      squared. */
  predicate Collides(b: Bubble, px: real, py: real)
  {
    var dx, dy := b.x - px, b.y - py;
    dx * dx + dy * dy < (b.radius + DRAGON_REACH) * (b.radius + DRAGON_REACH)
  }

  /** `d` is the Euclidean distance between two points `dx`, `dy` apart. */
  ghost predicate IsDistance(d: real, dx: real, dy: real)
  {
    d >= 0.0 && d * d == dx * dx + dy * dy
  }

  lemma ProductPositive(x: real, y: real)
    requires x > 0.0 && y > 0.0
    ensures x * y > 0.0
  {
  }

  lemma SquareMonotone(a: real, b: real)
    requires 0.0 <= a < b
    ensures a * a < b * b
  {
    ProductPositive(b - a, b + a);
    assert (b - a) * (b + a) == b * b - a * a;
  }

  /** The squared test agrees with the test in game.js on the distance itself:
      a collision is exactly a distance below the bubble's radius plus the
      dragon's reach (the radius is never so negative that the reach is not
      positive). */
  lemma CollidesIffWithinReach(b: Bubble, px: real, py: real, d: real)
    requires IsDistance(d, b.x - px, b.y - py)
    requires b.radius + DRAGON_REACH > 0.0
    ensures Collides(b, px, py) <==> d < b.radius + DRAGON_REACH
  {
    var reach := b.radius + DRAGON_REACH;
    if d < reach {
      SquareMonotone(d, reach);
    } else if reach < d {
      SquareMonotone(reach, d);
    }
  }

  // ---------------------------------------------------------------------
  // Scoring

  /** The score after one hit: a word adds REWARD, an emoji takes PENALTY
      off but never below zero. */
  function ApplyHit(score: int, b: Bubble): (r: int)
    ensures score >= 0 ==> r >= 0
    ensures b.kind == Word ==> r - score == REWARD
    ensures b.kind == Emoji ==> r >= 0
    ensures b.kind == Emoji && score >= PENALTY ==> score - r == PENALTY
    ensures b.kind == Emoji && score < PENALTY ==> r == 0
  {
    if b.kind == Emoji then (if score - PENALTY > 0 then score - PENALTY else 0)
    else score + REWARD
  }

  /** The score after the hits in `hits`, applied in order. */
  function ScoreAfter(score: int, hits: seq<Bubble>): int
    decreases hits
  {
    if hits == [] then score else ScoreAfter(ApplyHit(score, hits[0]), hits[1..])
  }

  lemma {:induction false} ScoreAfterNonNegative(score: int, hits: seq<Bubble>)
    requires score >= 0
    ensures ScoreAfter(score, hits) >= 0
    decreases hits
  {
    if hits != [] {
      ScoreAfterNonNegative(ApplyHit(score, hits[0]), hits[1..]);
    }
  }

  // ---------------------------------------------------------------------
  // One collision pass

  /** What one pass of `updateScoreAndHit` does with each bubble it starts
      with: removes it, examines it and keeps it, or never examines it because
      the removal just before it shifted it into the slot already visited. */
  datatype Verdict = Removed | Missed | Skipped

  /** The verdict for each bubble of `s`, by position. */
  function Verdicts(s: seq<Bubble>, px: real, py: real): (v: seq<Verdict>)
    ensures |v| == |s|
  {
    if s == [] then []
    else if Collides(s[0], px, py) then
      [Removed] + (if |s| == 1 then [] else [Skipped] + Verdicts(s[2..], px, py))
    else [Missed] + Verdicts(s[1..], px, py)
  }

  /** The verdict the loop of `updateScoreAndHit` reaches at position `j`, given the
      verdict at the position before. */
  function Expected(s: seq<Bubble>, v: seq<Verdict>, j: nat, px: real, py: real): Verdict
    requires j < |s| && j < |v|
  {
    if j > 0 && v[j - 1] == Removed then Skipped
    else if Collides(s[j], px, py) then Removed
    else Missed
  }

  /** A bubble is skipped exactly when the bubble before it was removed;
      every other bubble is examined and removed exactly when it collides. */
  lemma {:induction false} VerdictRule(s: seq<Bubble>, px: real, py: real, j: nat)
    requires j < |s|
    ensures Verdicts(s, px, py)[j] == Expected(s, Verdicts(s, px, py), j, px, py)
    decreases |s|
  {
    var v := Verdicts(s, px, py);
    if Collides(s[0], px, py) {
      if j >= 2 {
        var t := s[2..];
        VerdictRule(t, px, py, j - 2);
        var w := Verdicts(t, px, py);
        assert v == [Removed, Skipped] + w;
        assert v[j] == w[j - 2] && s[j] == t[j - 2];
        if j > 2 {
          assert v[j - 1] == w[j - 3];
        }
      }
    } else if j >= 1 {
      var t := s[1..];
      VerdictRule(t, px, py, j - 1);
      var w := Verdicts(t, px, py);
      assert v == [Missed] + w;
      assert v[j] == w[j - 1] && s[j] == t[j - 1];
      if j > 1 {
        assert v[j - 1] == w[j - 2];
      }
    }
  }

  /** Which bubbles are still in the list after the pass. */
  function Survives(v: seq<Verdict>): (keep: seq<bool>)
    ensures |keep| == |v|
  {
    seq(|v|, j requires 0 <= j < |v| => v[j] != Removed)
  }

  /** The bubbles left, the bubbles consumed (in the order they were hit)
      and the score, after one pass. */
  datatype Resolution = Resolution(survivors: seq<Bubble>, consumed: seq<Bubble>, score: int)

  /** One `updateScoreAndHit` pass over `s` against a dragon at (px, py). */
  function Pass(s: seq<Bubble>, score: int, px: real, py: real): Resolution
  {
    var keep := Survives(Verdicts(s, px, py));
    var consumed := Select(s, Negated(keep));
    Resolution(Select(s, keep), consumed, ScoreAfter(score, consumed))
  }

  // The pass, one or two bubbles at a time: the shape in which the loop of
  // `updateScoreAndHit` visits the list.

  lemma PassEmpty(score: int, px: real, py: real)
    ensures Pass([], score, px, py) == Resolution([], [], score)
  {
  }

  /** A bubble that misses stays, and the pass goes on with the next one. */
  lemma PassMiss(s: seq<Bubble>, score: int, px: real, py: real)
    requires s != [] && !Collides(s[0], px, py)
    ensures var rest := Pass(s[1..], score, px, py);
      Pass(s, score, px, py) == Resolution([s[0]] + rest.survivors, rest.consumed, rest.score)
  {
    var keep := Survives(Verdicts(s, px, py));
    assert keep[1..] == Survives(Verdicts(s[1..], px, py));
    assert Negated(keep)[1..] == Negated(keep[1..]);
  }

  /** The last bubble, when it collides, is consumed and scored. */
  lemma PassLastHit(s: seq<Bubble>, score: int, px: real, py: real)
    requires |s| == 1 && Collides(s[0], px, py)
    ensures Pass(s, score, px, py) == Resolution([], [s[0]], ApplyHit(score, s[0]))
  {
    var keep := Survives(Verdicts(s, px, py));
    assert keep == [false] && Negated(keep) == [true];
    assert Select(s, keep) == [] + Select([], []);
    assert Select(s, Negated(keep)) == [s[0]] + Select([], []);
    assert ScoreAfter(score, [s[0]]) == ScoreAfter(ApplyHit(score, s[0]), []);
  }

  /** A bubble that collides is consumed and scored; the one after it takes
      its slot, stays unexamined, and the pass goes on after that one. */
  lemma PassHit(s: seq<Bubble>, score: int, px: real, py: real)
    requires |s| >= 2 && Collides(s[0], px, py)
    ensures var rest := Pass(s[2..], ApplyHit(score, s[0]), px, py);
      Pass(s, score, px, py) == Resolution([s[1]] + rest.survivors, [s[0]] + rest.consumed, rest.score)
  {
    var t := s[2..];
    var keep := Survives(Verdicts(s, px, py));
    var keep2 := Survives(Verdicts(t, px, py));
    assert keep == [false, true] + keep2;
    assert Negated(keep) == [true, false] + Negated(keep2);
    assert s[1..][1..] == t;
    SurvivorsAfterHit(s, keep, keep2);
    var c2 := Select(t, Negated(keep2));
    ConsumedAfterHit(s, Negated(keep), Negated(keep2));
    assert ([s[0]] + c2)[1..] == c2;
  }

  lemma SurvivorsAfterHit(s: seq<Bubble>, keep: seq<bool>, keep2: seq<bool>)
    requires |s| >= 2 && |keep2| == |s| - 2 && keep == [false, true] + keep2
    ensures Select(s, keep) == [s[1]] + Select(s[2..], keep2)
  {
    assert keep[1..] == [true] + keep2;
    assert keep[1..][1..] == keep2;
    assert s[1..][1..] == s[2..];
  }

  lemma ConsumedAfterHit(s: seq<Bubble>, taken: seq<bool>, taken2: seq<bool>)
    requires |s| >= 2 && |taken2| == |s| - 2 && taken == [true, false] + taken2
    ensures Select(s, taken) == [s[0]] + Select(s[2..], taken2)
  {
    assert taken[1..] == [false] + taken2;
    assert taken[1..][1..] == taken2;
    assert s[1..][1..] == s[2..];
  }

  /** The pass keeps, in their order, exactly the bubbles it did not remove,
      and consumes, in their order, exactly the ones it removed. */
  lemma PassExact(s: seq<Bubble>, score: int, px: real, py: real)
    ensures var r, keep := Pass(s, score, px, py), Survives(Verdicts(s, px, py));
      && SelectedAt(r.survivors, s, keep, SelectedIndices(keep))
      && SelectedAt(r.consumed, s, Negated(keep), SelectedIndices(Negated(keep)))
      && (forall j :: 0 <= j < |s| ==> (keep[j] <==> Verdicts(s, px, py)[j] != Removed))
  {
    var keep := Survives(Verdicts(s, px, py));
    SelectCharacterized(s, keep);
    SelectCharacterized(s, Negated(keep));
  }

  /** The list shrinks by exactly the number of hits, and every bubble ends up
      in exactly one of the two parts. */
  lemma PassPartition(s: seq<Bubble>, score: int, px: real, py: real)
    ensures var r := Pass(s, score, px, py);
      && |r.survivors| == |s| - |r.consumed|
      && multiset(r.survivors) + multiset(r.consumed) == multiset(s)
  {
    SelectPartition(s, Survives(Verdicts(s, px, py)));
  }

  /** Every consumed bubble collides with the dragon. */
  lemma PassConsumedCollide(s: seq<Bubble>, score: int, px: real, py: real)
    ensures forall b :: b in Pass(s, score, px, py).consumed ==> Collides(b, px, py)
  {
    var v := Verdicts(s, px, py);
    var neg := Negated(Survives(v));
    var consumed := Pass(s, score, px, py).consumed;
    SelectedValues(s, neg);
    forall b | b in consumed
      ensures Collides(b, px, py)
    {
      var k :| 0 <= k < |consumed| && consumed[k] == b;
      var j := SelectedIndices(neg)[k];
      assert neg[j] && v[j] == Removed;
      VerdictRule(s, px, py, j);
    }
  }

  /** The score is never negative after a pass that started from a
      non-negative score. */
  lemma PassScoreNonNegative(s: seq<Bubble>, score: int, px: real, py: real)
    requires score >= 0
    ensures Pass(s, score, px, py).score >= 0
  {
    ScoreAfterNonNegative(score, Pass(s, score, px, py).consumed);
  }

  /** A pass that touches nothing changes nothing (the empty list included). */
  lemma PassNoContact(s: seq<Bubble>, score: int, px: real, py: real)
    requires forall j :: 0 <= j < |s| ==> !Collides(s[j], px, py)
    ensures Pass(s, score, px, py) == Resolution(s, [], score)
  {
    var v := Verdicts(s, px, py);
    forall j | 0 <= j < |s|
      ensures v[j] == Missed
    {
      VerdictRule(s, px, py, j);
      if j > 0 {
        VerdictRule(s, px, py, j - 1);
      }
    }
    var keep := Survives(v);
    SelectAll(s, keep);
    SelectNone(s, Negated(keep));
  }

  /** Two word bubbles both over the dragon: the first is consumed, the
      second shifts into its slot and survives the pass. */
  lemma PassSkipsShifted()
    ensures var b := Bubble("\U{798F}", 0.0, 0.0, 2.0, Word, BUBBLE_RADIUS);
      && Collides(b, 0.0, 0.0)
      && Pass([b, b], 0, 0.0, 0.0) == Resolution([b], [b], REWARD)
  {
    var b := Bubble("\U{798F}", 0.0, 0.0, 2.0, Word, BUBBLE_RADIUS);
    PassHit([b, b], 0, 0.0, 0.0);
    assert [b, b][2..] == [];
    PassEmpty(REWARD, 0.0, 0.0);
  }
}
