/**
 * The rules of one game tick, as pure definitions over values: the playfield
 * and tuning constants, player steering and clamping, the two-frame walk
 * animation, the spawn scheduler's arithmetic, the asymmetric catch box, the
 * fate of each falling "niku" in the reverse fall-and-collect pass, the heart
 * countdown, the two on-screen buttons and the viewport transform.
 *
 * The class in game.dfy performs the tick step by step and is proved against
 * these definitions; the lemmas here say what the definitions mean.
 */
module GameRules {

  // Logical playfield, in logical pixels.
  const WIDTH: int := 800
  const HEIGHT: int := 600

  // Fixed tuning values set up when the game starts.
  const PLAYER_Y: int := 400
  const PLAYER_SPEED: real := 2.0
  const NIKU_SPEED: int := 5
  const NIKU_INTERVAL: int := 2000   // milliseconds between timer spawns
  const MIN_NIKU: nat := 3           // the refill loop tops the list up to this
  const HEART_TICKS: int := 3        // the heart timer's value on a catch
  const FRAME_COUNT: nat := 2        // the player sprite has two walk frames

  // The two control buttons (50 x 50, near the bottom corners).
  const BUTTON_SIZE: int := 50
  const LEFT_BUTTON_X: int := 10
  const LEFT_BUTTON_Y: int := HEIGHT - 150
  const RIGHT_BUTTON_X: int := WIDTH - 100
  const RIGHT_BUTTON_Y: int := HEIGHT - 150

  /** Pixel dimensions of a loaded sprite image. */
  datatype Size = Size(width: nat, height: nat)

  /** A falling object: x is fixed at spawn, y grows by NIKU_SPEED per tick. */
  datatype Niku = Niku(x: real, y: int)

  /** Where a niku may be between ticks: horizontally inside its spawn range, vertically on screen. */
  predicate OnField(n: Niku, nikuWidth: nat) {
    0.0 <= n.x < (WIDTH - nikuWidth) as real && 0 <= n.y <= HEIGHT
  }

  // ---------------------------------------------------------------------------
  // Player movement, facing and clamping

  /**
   * One tick of steering: left wins over right; the facing follows the flag
   * that moved the player and is kept when neither flag is set.
   * Result: (new x before clamping, new facingRight).
   */
  function Steer(x: real, facingRight: bool, moveLeft: bool, moveRight: bool): (r: (real, bool))
    ensures (r.0 != x) <==> (moveLeft || moveRight)
    ensures moveLeft ==> r.0 < x && !r.1
    ensures r.0 > x ==> r.1
    ensures r.0 == x ==> r.1 == facingRight
    ensures (moveLeft || moveRight) ==> Distance(r.0, x) == PLAYER_SPEED
    ensures !moveLeft && moveRight ==> r.0 > x && r.1
  {
    if moveLeft then (x - PLAYER_SPEED, false)
    else if moveRight then (x + PLAYER_SPEED, true)
    else (x, facingRight)
  }

  /** The positions at which a sprite of width w lies wholly inside the playfield. */
  predicate Inside(x: real, w: nat) {
    0.0 <= x && x + w as real <= WIDTH as real
  }

  function Distance(a: real, b: real): real {
    if a <= b then b - a else a - b
  }

  /**
   * Clamping: the result lies inside the playfield and is the inside position
   * nearest to x; in particular an inside x is left alone.
   */
  function Clamp(x: real, w: nat): (r: real)
    requires w <= WIDTH
    ensures Inside(r, w)
    ensures forall p :: Inside(p, w) ==> Distance(r, x) <= Distance(p, x)
    ensures Inside(x, w) ==> r == x
  {
    if x < 0.0 then 0.0
    else if x + w as real > WIDTH as real then (WIDTH - w) as real
    else x
  }

  // ---------------------------------------------------------------------------
  // Walk animation

  /** The next walk frame: alternates while moving, back to the idle frame 0 otherwise. */
  function NextFrame(index: nat, moving: bool): (r: nat)
    requires index < FRAME_COUNT
    ensures r < FRAME_COUNT
    ensures moving ==> r != index
    ensures !moving ==> r == 0
  {
    if moving then (index + 1) % FRAME_COUNT else 0
  }

  /** The frame after n consecutive moving ticks. */
  function FrameAfter(index: nat, n: nat): nat
    requires index < FRAME_COUNT
  {
    if n == 0 then index else NextFrame(FrameAfter(index, n - 1), true)
  }

  /** While a movement flag stays set, the frames cycle 0, 1, 0, 1, ... */
  lemma {:induction false} FramesAlternate(index: nat, n: nat)
    requires index < FRAME_COUNT
    ensures FrameAfter(index, n) == (index + n) % FRAME_COUNT
  {
    if n > 0 {
      FramesAlternate(index, n - 1);
    }
  }

  // ---------------------------------------------------------------------------
  // Spawn scheduler

  /** The timer spawn fires only when strictly more than the interval has passed. */
  predicate SpawnDue(now: int, lastNikuTime: int) {
    now - lastNikuTime > NIKU_INTERVAL
  }

  /** The interval test is strict: 2000 ms after the last timer spawn is not yet due, 2001 ms is. */
  lemma SpawnTimerBoundary(last: int)
    ensures !SpawnDue(last + NIKU_INTERVAL, last)
    ensures SpawnDue(last + NIKU_INTERVAL + 1, last)
    ensures SpawnCount(0, true) == MIN_NIKU && SpawnCount(MIN_NIKU, true) == 1 && SpawnCount(MIN_NIKU, false) == 0
  {
  }

  /** A fraction in [0, 1) of a positive span lies in [0, span). */
  lemma FractionBelow(random: real, span: real)
    requires 0.0 <= random < 1.0
    requires span > 0.0
    ensures 0.0 <= random * span < span
  {
    assert span - random * span == (1.0 - random) * span;
  }

  /** The fraction random of a positive span. */
  function Fraction(random: real, span: real): (x: real)
    requires 0.0 <= random < 1.0
    requires span > 0.0
    ensures 0.0 <= x < span
  {
    FractionBelow(random, span);
    random * span
  }

  /** Every point of [0, span) is the fraction x / span of the span. */
  lemma FractionInverse(x: real, span: real)
    requires 0.0 <= x < span
    ensures 0.0 <= x / span < 1.0 && Fraction(x / span, span) == x
  {
    var random := x / span;
    assert random * span == x;
    assert random < 1.0 by {
      assert (1.0 - random) * span == span - x;
    }
  }

  /** A random value in [0, 1) scaled to the spawn range [0, WIDTH - nikuWidth). */
  function SpawnX(random: real, nikuWidth: nat): (x: real)
    requires 0.0 <= random < 1.0
    requires nikuWidth < WIDTH
    ensures 0.0 <= x < (WIDTH - nikuWidth) as real
  {
    Fraction(random, (WIDTH - nikuWidth) as real)
  }

  /** Every position in the spawn range is the image of some random value. */
  lemma SpawnXCovers(x: real, nikuWidth: nat)
    requires nikuWidth < WIDTH
    requires 0.0 <= x < (WIDTH - nikuWidth) as real
    ensures exists random :: 0.0 <= random < 1.0 && SpawnX(random, nikuWidth) == x
  {
    var span := (WIDTH - nikuWidth) as real;
    FractionInverse(x, span);
    assert SpawnX(x / span, nikuWidth) == x;
  }

  /**
   * How many niku one tick spawns from a list of n: one for the timer when it
   * is due, then as many as the refill loop needs to reach MIN_NIKU.
   */
  function SpawnCount(n: nat, due: bool): (count: nat)
    ensures n + count >= MIN_NIKU
    ensures due ==> count >= 1
    ensures count > (if due then 1 else 0) ==> n + count == MIN_NIKU
    ensures count <= MIN_NIKU
  {
    var timer := if due then 1 else 0;
    timer + (if n + timer < MIN_NIKU then MIN_NIKU - (n + timer) else 0)
  }

  predicate AreRandoms(randoms: seq<real>) {
    forall k :: 0 <= k < |randoms| ==> 0.0 <= randoms[k] < 1.0
  }

  /** The niku created from a run of random values, one each, in order. */
  function Spawns(randoms: seq<real>, nikuWidth: nat): (s: seq<Niku>)
    requires AreRandoms(randoms)
    requires nikuWidth < WIDTH
    ensures |s| == |randoms|
    ensures forall k :: 0 <= k < |s| ==> s[k].y == 0 && OnField(s[k], nikuWidth)
  {
    seq(|randoms|, k requires 0 <= k < |randoms| => Niku(SpawnX(randoms[k], nikuWidth), 0))
  }

  /** Spawning one more niku appends it at the end. */
  lemma SpawnsSnoc(randoms: seq<real>, r: real, nikuWidth: nat)
    requires AreRandoms(randoms) && 0.0 <= r < 1.0
    requires nikuWidth < WIDTH
    ensures AreRandoms(randoms + [r])
    ensures Spawns(randoms + [r], nikuWidth) == Spawns(randoms, nikuWidth) + [Niku(SpawnX(r, nikuWidth), 0)]
  {
    assert forall k :: 0 <= k < |randoms| ==> (randoms + [r])[k] == randoms[k];
    assert (randoms + [r])[|randoms|] == r;
  }

  // ---------------------------------------------------------------------------
  // Collision

  /** The player's catch box for this tick: its clamped x, current frame size and the niku size. */
  datatype CatchBox = CatchBox(playerX: real, player: Size, niku: Size)

  /**
   * The asymmetric catch test: the niku's top-left corner against the player
   * box, widened by half a niku width on the left and shifted by half a niku
   * width on the right, and reaching up by one niku height.
   */
  predicate Hits(b: CatchBox, n: Niku) {
    n.y >= PLAYER_Y - b.niku.height &&
    n.y <= PLAYER_Y + b.player.height &&
    n.x >= b.playerX - b.niku.width as real / 2.0 &&
    n.x <= b.playerX + b.player.width as real - b.niku.width as real / 2.0
  }

  /**
   * The catch test read geometrically: the niku's vertical extent touches the
   * player's, and the niku's centre column lies over the player sprite.
   */
  lemma HitsIsCentreOverPlayer(b: CatchBox, n: Niku)
    ensures Hits(b, n) <==>
      (n.y + b.niku.height >= PLAYER_Y && n.y <= PLAYER_Y + b.player.height &&
       b.playerX <= n.x + b.niku.width as real / 2.0 <= b.playerX + b.player.width as real)
  {
  }

  /** A niku whose corner sits on the player's corner is caught when the player is at least half a niku wide. */
  lemma HitsAtPlayerCorner(b: CatchBox)
    requires 2 * b.player.width >= b.niku.width
    ensures Hits(b, Niku(b.playerX, PLAYER_Y))
  {
  }

  /** A niku at the player's right edge is outside the box as soon as it has any width. */
  lemma MissesAtRightEdge(b: CatchBox, y: int)
    requires b.niku.width > 0
    ensures !Hits(b, Niku(b.playerX + b.player.width as real, y))
  {
  }

  // ---------------------------------------------------------------------------
  // The fall-and-collect pass

  /** A niku moved down one tick. */
  function Dropped(n: Niku): Niku {
    n.(y := n.y + NIKU_SPEED)
  }

  /**
   * What the reverse pass does to the niku at index k:
   *   Fell      - visited, moved down, kept;
   *   Missed    - visited, moved below the screen, removed;
   *   Collected - visited, moved into the catch box, removed (heart starts);
   *   Skipped   - not visited: the pass stepped over it because the niku just
   *               above it (index k + 1) was collected.
   */
  datatype Fate = Fell | Missed | Collected | Skipped

  /**
   * The fate of index k, decided from the top index downwards as the pass goes.
   * Two neighbours are never both caught in one pass.
   */
  function FateAt(list: seq<Niku>, b: CatchBox, k: nat): (f: Fate)
    requires k < |list|
    ensures f == Collected && k + 1 < |list| ==> FateAt(list, b, k + 1) != Collected
    decreases |list| - k
  {
    if k + 1 < |list| && FateAt(list, b, k + 1) == Collected then Skipped
    else if Dropped(list[k]).y > HEIGHT then Missed
    else if Hits(b, Dropped(list[k])) then Collected
    else Fell
  }

  predicate Kept(list: seq<Niku>, b: CatchBox, k: nat)
    requires k < |list|
  {
    FateAt(list, b, k) == Fell || FateAt(list, b, k) == Skipped
  }

  /** What a kept niku looks like after the pass. */
  function Survivor(list: seq<Niku>, b: CatchBox, k: nat): Niku
    requires k < |list|
  {
    if FateAt(list, b, k) == Skipped then list[k] else Dropped(list[k])
  }

  /** The niku of indices k.. that the pass keeps, in list order; the pass never adds any. */
  function Survivors(list: seq<Niku>, b: CatchBox, k: nat): (s: seq<Niku>)
    requires k <= |list|
    ensures |s| <= |list| - k
    decreases |list| - k
  {
    if k == |list| then []
    else (if Kept(list, b, k) then [Survivor(list, b, k)] else []) + Survivors(list, b, k + 1)
  }

  /** Whether the pass catches any niku of indices k..; a catch needs a niku that fell into the box on screen. */
  predicate CollectedFrom(list: seq<Niku>, b: CatchBox, k: nat)
    requires k <= |list|
    ensures CollectedFrom(list, b, k) ==>
      exists j :: k <= j < |list| && Dropped(list[j]).y <= HEIGHT && Hits(b, Dropped(list[j]))
    decreases |list| - k
  {
    k < |list| && (FateAt(list, b, k) == Collected || CollectedFrom(list, b, k + 1))
  }

  /** The indices k.. whose niku the pass keeps, ascending. */
  function KeptFrom(list: seq<Niku>, b: CatchBox, k: nat): seq<nat>
    requires k <= |list|
    decreases |list| - k
  {
    if k == |list| then []
    else (if Kept(list, b, k) then [k] else []) + KeptFrom(list, b, k + 1)
  }

  /**
   * The rules of the pass for a single niku: a visited niku moves down by
   * exactly NIKU_SPEED and is removed when it is below the screen or in the
   * catch box; the niku right below a caught one is not visited at all.
   */
  lemma FateRules(list: seq<Niku>, b: CatchBox, k: nat)
    requires k < |list|
    ensures FateAt(list, b, k) == Skipped <==> k + 1 < |list| && FateAt(list, b, k + 1) == Collected
    ensures FateAt(list, b, k) == Missed <==>
      FateAt(list, b, k) != Skipped && Dropped(list[k]).y > HEIGHT
    ensures FateAt(list, b, k) == Collected <==>
      FateAt(list, b, k) != Skipped && Dropped(list[k]).y <= HEIGHT && Hits(b, Dropped(list[k]))
    ensures FateAt(list, b, k) == Fell <==>
      FateAt(list, b, k) != Skipped && Dropped(list[k]).y <= HEIGHT && !Hits(b, Dropped(list[k]))
    ensures Kept(list, b, k) ==> Survivor(list, b, k).x == list[k].x
    ensures FateAt(list, b, k) == Fell ==> Survivor(list, b, k).y == list[k].y + NIKU_SPEED
    ensures FateAt(list, b, k) == Skipped ==> Survivor(list, b, k) == list[k]
  {
    if k + 1 < |list| && FateAt(list, b, k + 1) == Collected {
      assert FateAt(list, b, k) == Skipped;
    }
  }

  /**
   * The skip quirk: after a catch at index k the pass also steps over index
   * k - 1, which stays exactly as it was this tick, even if it would have been
   * caught or was about to leave the screen.
   */
  lemma SkipQuirk(list: seq<Niku>, b: CatchBox, k: nat)
    requires 0 < k < |list|
    requires FateAt(list, b, k) == Collected
    ensures FateAt(list, b, k - 1) == Skipped
    ensures Survivors(list, b, k - 1) == [list[k - 1]] + Survivors(list, b, k + 1)
  {
    assert !Kept(list, b, k);
    assert Survivors(list, b, k) == Survivors(list, b, k + 1);
  }

  /** Two niku side by side in the catch box: only the upper one is caught, the lower one stays put. */
  lemma SkipQuirkExample(b: CatchBox, n: Niku)
    requires Dropped(n).y <= HEIGHT && Hits(b, Dropped(n))
    ensures Survivors([n, n], b, 0) == [n]
    ensures CollectedFrom([n, n], b, 0)
  {
    var list := [n, n];
    assert FateAt(list, b, 1) == Collected;
    assert FateAt(list, b, 0) == Skipped;
    assert Survivors(list, b, 1) == [];
  }

  /** The kept indices from k on are in range and kept. */
  lemma {:induction false} KeptFromIndices(list: seq<Niku>, b: CatchBox, k: nat)
    requires k <= |list|
    ensures forall p :: 0 <= p < |KeptFrom(list, b, k)| ==>
      k <= KeptFrom(list, b, k)[p] < |list| && Kept(list, b, KeptFrom(list, b, k)[p])
    decreases |list| - k
  {
    if k < |list| {
      KeptFromIndices(list, b, k + 1);
      var rest := KeptFrom(list, b, k + 1);
      if Kept(list, b, k) {
        var idx := [k] + rest;
        assert KeptFrom(list, b, k) == idx;
        forall p | 0 < p < |idx|
          ensures k < idx[p] < |list| && Kept(list, b, idx[p])
        {
          assert idx[p] == rest[p - 1];
        }
      }
    }
  }

  /** The kept indices are listed in strictly ascending order. */
  lemma {:induction false} KeptFromAscending(list: seq<Niku>, b: CatchBox, k: nat)
    requires k <= |list|
    ensures forall p, q :: 0 <= p < q < |KeptFrom(list, b, k)| ==> KeptFrom(list, b, k)[p] < KeptFrom(list, b, k)[q]
    decreases |list| - k
  {
    if k < |list| {
      KeptFromAscending(list, b, k + 1);
      KeptFromIndices(list, b, k + 1);
      var rest := KeptFrom(list, b, k + 1);
      if Kept(list, b, k) {
        var idx := [k] + rest;
        assert KeptFrom(list, b, k) == idx;
        forall p, q | 0 <= p < q < |idx|
          ensures idx[p] < idx[q]
        {
          assert idx[q] == rest[q - 1];
          if p > 0 {
            assert idx[p] == rest[p - 1];
          }
        }
      }
    }
  }

  /** Every kept index from k on is listed. */
  lemma {:induction false} KeptFromComplete(list: seq<Niku>, b: CatchBox, k: nat)
    requires k <= |list|
    ensures forall j :: k <= j < |list| && Kept(list, b, j) ==> j in KeptFrom(list, b, k)
    decreases |list| - k
  {
    if k < |list| {
      KeptFromComplete(list, b, k + 1);
    }
  }

  /**
   * Order and identity of the survivors: the p-th survivor is the niku of the
   * p-th kept index, moved down by the pass unless it was skipped. Together
   * with KeptFromIndices, KeptFromAscending and KeptFromComplete: the survivors are exactly the kept niku, in their
   * original relative order.
   */
  lemma {:induction false} SurvivorsInOrder(list: seq<Niku>, b: CatchBox, k: nat)
    requires k <= |list|
    ensures |Survivors(list, b, k)| == |KeptFrom(list, b, k)|
    ensures forall p :: 0 <= p < |KeptFrom(list, b, k)| ==>
      KeptFrom(list, b, k)[p] < |list| &&
      Survivors(list, b, k)[p] == Survivor(list, b, KeptFrom(list, b, k)[p])
    decreases |list| - k
  {
    if k < |list| {
      SurvivorsInOrder(list, b, k + 1);
      var rest, sRest := KeptFrom(list, b, k + 1), Survivors(list, b, k + 1);
      if Kept(list, b, k) {
        var idx, s := [k] + rest, [Survivor(list, b, k)] + sRest;
        assert KeptFrom(list, b, k) == idx && Survivors(list, b, k) == s;
        forall p | 0 < p < |idx|
          ensures idx[p] < |list| && s[p] == Survivor(list, b, idx[p])
        {
          assert idx[p] == rest[p - 1] && s[p] == sRest[p - 1];
        }
      } else {
        assert KeptFrom(list, b, k) == rest && Survivors(list, b, k) == sRest;
      }
    }
  }

  /**
   * One step of the reverse pass at index i, when the niku above was not
   * caught: a niku below the screen is dropped from the survivors, a caught
   * one too (and the niku below it is then kept as it is), any other is kept
   * moved down.
   */
  lemma PassStep(list: seq<Niku>, b: CatchBox, i: nat)
    requires i < |list|
    requires i + 1 < |list| ==> FateAt(list, b, i + 1) != Collected
    ensures Dropped(list[i]).y > HEIGHT ==>
      FateAt(list, b, i) == Missed &&
      Survivors(list, b, i) == Survivors(list, b, i + 1) &&
      CollectedFrom(list, b, i) == CollectedFrom(list, b, i + 1)
    ensures Dropped(list[i]).y <= HEIGHT && !Hits(b, Dropped(list[i])) ==>
      FateAt(list, b, i) == Fell &&
      Survivors(list, b, i) == [Dropped(list[i])] + Survivors(list, b, i + 1) &&
      CollectedFrom(list, b, i) == CollectedFrom(list, b, i + 1)
    ensures Dropped(list[i]).y <= HEIGHT && Hits(b, Dropped(list[i])) ==>
      FateAt(list, b, i) == Collected && CollectedFrom(list, b, i) &&
      (i == 0 ==> Survivors(list, b, 0) == Survivors(list, b, 1)) &&
      (i > 0 ==> FateAt(list, b, i - 1) == Skipped && CollectedFrom(list, b, i - 1) &&
                 list[..i] + Survivors(list, b, i + 1) == list[..i - 1] + Survivors(list, b, i - 1))
  {
    if Dropped(list[i]).y <= HEIGHT && Hits(b, Dropped(list[i])) {
      assert FateAt(list, b, i) == Collected;
      if i > 0 {
        SkipQuirk(list, b, i);
        assert list[..i] == list[..i - 1] + [list[i - 1]];
      }
    }
  }

  /** No niku of a field list leaves the field during the pass: survivors stay on screen and in range. */
  lemma {:induction false} SurvivorsOnField(list: seq<Niku>, b: CatchBox, k: nat, nikuWidth: nat)
    requires k <= |list|
    requires forall n :: n in list ==> OnField(n, nikuWidth)
    ensures forall n :: n in Survivors(list, b, k) ==> OnField(n, nikuWidth)
    decreases |list| - k
  {
    if k < |list| {
      SurvivorsOnField(list, b, k + 1, nikuWidth);
      assert list[k] in list;
    }
  }

  /** A catch somewhere among indices k.. is one at a specific index. */
  lemma {:induction false} CollectedFromWitness(list: seq<Niku>, b: CatchBox, k: nat)
    requires k <= |list|
    ensures CollectedFrom(list, b, k) <==> exists j :: k <= j < |list| && FateAt(list, b, j) == Collected
    decreases |list| - k
  {
    if k < |list| {
      CollectedFromWitness(list, b, k + 1);
      if FateAt(list, b, k) == Collected {
        assert exists j :: k <= j < |list| && FateAt(list, b, j) == Collected;
      } else if exists j :: k <= j < |list| && FateAt(list, b, j) == Collected {
        var j :| k <= j < |list| && FateAt(list, b, j) == Collected;
        assert j != k;
      }
    }
  }

  // ---------------------------------------------------------------------------
  // Heart countdown

  /** One tick of the heart timer: down by one while positive, never below zero. */
  function CountDown(t: int): (r: int)
    requires t >= 0
    ensures 0 <= r <= t
    ensures r == t <==> t == 0
    ensures t - r <= 1
  {
    if t > 0 then t - 1 else t
  }

  /** The heart timer after n ticks without a catch. */
  function TimerAfter(t: nat, n: nat): nat {
    if n == 0 then t else CountDown(TimerAfter(t, n - 1))
  }

  /** Without further catches the timer reaches zero after exactly t ticks and stays there. */
  lemma {:induction false} TimerAfterTicks(t: nat, n: nat)
    ensures TimerAfter(t, n) == if n <= t then t - n else 0
  {
    if n > 0 {
      TimerAfterTicks(t, n - 1);
    }
  }

  /**
   * A catch leaves the timer at HEART_TICKS - 1 at the end of its tick, and,
   * when no other catch follows, the heart (drawn while the timer is positive,
   * before the decrement) shows on that tick and the next HEART_TICKS - 1
   * ticks, and on no later one.
   */
  lemma HeartShowsForThreeTicks(n: nat)
    ensures TimerAfter(HEART_TICKS, 1) == HEART_TICKS - 1
    ensures TimerAfter(HEART_TICKS, n) > 0 <==> n < HEART_TICKS
  {
    TimerAfterTicks(HEART_TICKS, 1);
    TimerAfterTicks(HEART_TICKS, n);
  }

  // ---------------------------------------------------------------------------
  // Buttons

  /** Strictly inside the square button whose top-left corner is (left, top). */
  predicate InButton(x: real, y: real, left: int, top: int) {
    left as real < x < (left + BUTTON_SIZE) as real && top as real < y < (top + BUTTON_SIZE) as real
  }

  predicate InLeftButton(x: real, y: real) {
    InButton(x, y, LEFT_BUTTON_X, LEFT_BUTTON_Y)
  }

  predicate InRightButton(x: real, y: real) {
    InButton(x, y, RIGHT_BUTTON_X, RIGHT_BUTTON_Y)
  }

  /** The two buttons do not overlap, so checking the left one first decides nothing. */
  lemma ButtonsApart(x: real, y: real)
    ensures !(InLeftButton(x, y) && InRightButton(x, y))
  {
  }

  // ---------------------------------------------------------------------------
  // Viewport

  /** Screen coordinate to logical coordinate, for a uniform scale and a letterbox offset. */
  function ToLogical(p: real, scale: real, offset: real): (l: real)
    requires scale > 0.0
    ensures ToScreen(l, scale, offset) == p
  {
    (p - offset) / scale
  }

  /** Logical coordinate to screen coordinate: the canvas scale, then the canvas offset. */
  function ToScreen(l: real, scale: real, offset: real): real {
    l * scale + offset
  }

  /** The two conversions are inverse to each other. */
  lemma ViewportRoundTrip(p: real, l: real, scale: real, offset: real)
    requires scale > 0.0
    ensures ToScreen(ToLogical(p, scale, offset), scale, offset) == p
    ensures ToLogical(ToScreen(l, scale, offset), scale, offset) == l
  {
    assert (p - offset) / scale * scale == p - offset;
    assert (l * scale) / scale == l;
  }
}
