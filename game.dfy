/**
 * The game's mutable state and its per-tick update. The class fields are the
 * variables the game loop, the press handler and the release handler update in
 * place; each method is proved against the definitions in module GameRules.
 *
 * Drawing, image loading and frame scheduling are not modelled: the sprite
 * sizes are constructor parameters, the clock reading and the random values a
 * tick consumes are parameters of Tick.
 */
module GameLoop {
  import opened GameRules

  /** The index the reverse pass resumes from, as a length of the untouched prefix. */
  function Resume(i: int): nat
  {
    if i + 1 < 0 then 0 else i + 1
  }

  /** Replacing the element between a prefix and a rest. */
  lemma ReplaceAt<T>(prefix: seq<T>, y: T, x: T, rest: seq<T>)
    ensures (prefix + [y] + rest)[|prefix| := x] == prefix + [x] + rest
  {
  }

  /** Splicing out the element between a prefix and a rest. */
  lemma SpliceAt<T>(prefix: seq<T>, x: T, rest: seq<T>)
    ensures (prefix + [x] + rest)[..|prefix|] + (prefix + [x] + rest)[|prefix| + 1..] == prefix + rest
  {
    assert (prefix + [x] + rest)[..|prefix|] == prefix;
    assert (prefix + [x] + rest)[|prefix| + 1..] == rest;
  }

  class Game {
    // Sizes of the loaded images: the two walk frames of the player and the niku.
    const frames: seq<Size>
    const nikuSize: Size

    var playerX: real
    var playerIndex: nat        // current walk frame
    var heartTimer: int         // ticks left to show the heart; 0 = hidden
    var moveLeft: bool
    var moveRight: bool
    var facingRight: bool
    var lastNikuTime: int       // clock reading of the last timer spawn
    var nikuList: seq<Niku>     // the falling niku, oldest first

    /** The walk frame whose width the last clamp was computed with. */
    ghost var clampFrame: nat

    /**
     * The state between ticks: sizes fit the playfield, the frame index is a
     * frame, the player is inside the playfield for the frame it was clamped
     * with, the heart timer is a non-negative countdown and every niku is on the
     * field.
     */
    ghost predicate Valid()
      reads this
    {
      |frames| == FRAME_COUNT &&
      (forall i :: 0 <= i < |frames| ==> frames[i].width <= WIDTH) &&
      nikuSize.width < WIDTH &&
      playerIndex < FRAME_COUNT &&
      clampFrame < FRAME_COUNT &&
      Inside(playerX, frames[clampFrame].width) &&
      0 <= heartTimer <= HEART_TICKS &&
      (forall n :: n in nikuList ==> OnField(n, nikuSize.width))
    }

    /** The start of a game: player centred on frame 0, nothing moving, no niku yet. */
    constructor (frames: seq<Size>, nikuSize: Size)
      requires |frames| == FRAME_COUNT
      requires forall i :: 0 <= i < |frames| ==> frames[i].width <= WIDTH
      requires nikuSize.width < WIDTH
      ensures Valid()
      ensures this.frames == frames && this.nikuSize == nikuSize
      ensures playerX == WIDTH as real / 2.0 - frames[0].width as real / 2.0
      ensures playerIndex == 0 && heartTimer == 0 && lastNikuTime == 0 && nikuList == []
      ensures !moveLeft && !moveRight && !facingRight
    {
      this.frames := frames;
      this.nikuSize := nikuSize;
      playerX := WIDTH as real / 2.0 - frames[0].width as real / 2.0;
      playerIndex := 0;
      heartTimer := 0;
      moveLeft := false;
      moveRight := false;
      facingRight := false;
      lastNikuTime := 0;
      nikuList := [];
      clampFrame := 0;
    }

    /**
     * One tick of the game loop at clock reading `now`, drawing spawn positions
     * from `randoms`: steer and clamp the player, advance the walk animation,
     * spawn, let the niku fall and catch them, count the heart down.
     */
    method Tick(now: int, randoms: seq<real>)
      requires Valid()
      requires AreRandoms(randoms)
      requires |randoms| >= SpawnCount(|nikuList|, SpawnDue(now, lastNikuTime))
      modifies this
      ensures Valid() && heartTimer < HEART_TICKS
      ensures moveLeft == old(moveLeft) && moveRight == old(moveRight)
      ensures var steered := Steer(old(playerX), old(facingRight), moveLeft, moveRight);
        playerX == Clamp(steered.0, frames[old(playerIndex)].width) && facingRight == steered.1
      ensures playerIndex == NextFrame(old(playerIndex), moveLeft || moveRight)
      ensures lastNikuTime == if SpawnDue(now, old(lastNikuTime)) then now else old(lastNikuTime)
      ensures var count := SpawnCount(|old(nikuList)|, SpawnDue(now, old(lastNikuTime)));
        var spawned := old(nikuList) + Spawns(randoms[..count], nikuSize.width);
        var box := CatchBox(playerX, frames[playerIndex], nikuSize);
        nikuList == Survivors(spawned, box, 0) &&
        heartTimer == if CollectedFrom(spawned, box, 0) then HEART_TICKS - 1 else CountDown(old(heartTimer))
    {
      MovePlayer();
      ghost var spawned := nikuList + Spawns(randoms[..SpawnCount(|nikuList|, SpawnDue(now, lastNikuTime))], nikuSize.width);
      SpawnNiku(now, randoms);
      assert nikuList == spawned;
      FallAndCollect();
      CountDownHeart();
    }

    /**
     * Steering, clamping and the walk animation: move by PLAYER_SPEED (left
     * first), clamp with the width of the frame in effect, then step the frame.
     */
    method MovePlayer()
      requires Valid()
      modifies this`playerX, this`facingRight, this`playerIndex, this`clampFrame
      ensures Valid()
      ensures var steered := Steer(old(playerX), old(facingRight), moveLeft, moveRight);
        playerX == Clamp(steered.0, frames[old(playerIndex)].width) && facingRight == steered.1
      ensures playerIndex == NextFrame(old(playerIndex), moveLeft || moveRight)
    {
      // Steering: left takes priority over right.
      if moveLeft {
        playerX := playerX - PLAYER_SPEED;
        facingRight := false;
      } else if moveRight {
        playerX := playerX + PLAYER_SPEED;
        facingRight := true;
      }

      // Keep the sprite of the current frame inside the playfield.
      var w := frames[playerIndex].width as real;
      if playerX < 0.0 {
        playerX := 0.0;
      } else if playerX + w > WIDTH as real {
        playerX := WIDTH as real - w;
      }
      clampFrame := playerIndex;

      // Walk animation.
      if moveLeft || moveRight {
        playerIndex := (playerIndex + 1) % FRAME_COUNT;
      } else {
        playerIndex := 0;
      }
    }

    /** The heart countdown at the end of a tick: one down while positive. */
    method CountDownHeart()
      requires Valid()
      modifies this`heartTimer
      ensures Valid()
      ensures heartTimer == CountDown(old(heartTimer))
    {
      if heartTimer > 0 {
        heartTimer := heartTimer - 1;
      }
    }

    /** Create one niku at the top of the screen, at the spawn position of `random`. */
    method CreateNiku(random: real)
      requires 0.0 <= random < 1.0
      requires nikuSize.width < WIDTH
      modifies this`nikuList
      ensures nikuList == old(nikuList) + [Niku(SpawnX(random, nikuSize.width), 0)]
    {
      var x := SpawnX(random, nikuSize.width);
      nikuList := nikuList + [Niku(x, 0)];
    }

    /**
     * The spawn scheduler: one niku when the timer is due (and the timer
     * restarts at `now`), then the refill loop adds niku until there are at
     * least MIN_NIKU. Existing niku are left as they are; new ones are appended.
     */
    method SpawnNiku(now: int, randoms: seq<real>)
      requires Valid()
      requires AreRandoms(randoms)
      requires |randoms| >= SpawnCount(|nikuList|, SpawnDue(now, lastNikuTime))
      modifies this`nikuList, this`lastNikuTime
      ensures Valid()
      ensures |nikuList| >= MIN_NIKU
      ensures lastNikuTime == if SpawnDue(now, old(lastNikuTime)) then now else old(lastNikuTime)
      ensures nikuList == old(nikuList) +
        Spawns(randoms[..SpawnCount(|old(nikuList)|, SpawnDue(now, old(lastNikuTime)))], nikuSize.width)
    {
      ghost var count := SpawnCount(|nikuList|, SpawnDue(now, lastNikuTime));
      ghost var timer := if SpawnDue(now, lastNikuTime) then 1 else 0;
      var used := 0;
      assert randoms[..0] == [];
      if now - lastNikuTime > NIKU_INTERVAL {
        assert randoms[..1] == [] + [randoms[0]];
        SpawnsSnoc([], randoms[0], nikuSize.width);
        CreateNiku(randoms[used]);
        used := used + 1;
        lastNikuTime := now;
      }
      while |nikuList| < MIN_NIKU
        invariant Valid()
        invariant used <= count
        invariant |nikuList| == |old(nikuList)| + used
        invariant used == timer || |nikuList| <= MIN_NIKU
        invariant nikuList == old(nikuList) + Spawns(randoms[..used], nikuSize.width)
        invariant lastNikuTime == if SpawnDue(now, old(lastNikuTime)) then now else old(lastNikuTime)
        decreases MIN_NIKU - |nikuList|
      {
        assert randoms[..used + 1] == randoms[..used] + [randoms[used]];
        SpawnsSnoc(randoms[..used], randoms[used], nikuSize.width);
        CreateNiku(randoms[used]);
        used := used + 1;
      }
    }

    /**
     * The fall-and-collect pass: walks the niku from the last to the first,
     * moves each visited one down, removes it when it left the screen or hit the
     * player (then the heart timer restarts), and after a catch also steps over
     * the niku just below it.
     */
    method FallAndCollect()
      requires Valid()
      modifies this`nikuList, this`heartTimer
      ensures Valid()
      ensures var box := CatchBox(playerX, frames[playerIndex], nikuSize);
        nikuList == Survivors(old(nikuList), box, 0) &&
        heartTimer == if CollectedFrom(old(nikuList), box, 0) then HEART_TICKS else old(heartTimer)
    {
      ghost var list := nikuList;
      ghost var box := CatchBox(playerX, frames[playerIndex], nikuSize);
      var i := |nikuList| - 1;
      while i >= 0
        invariant -2 <= i < |list|
        invariant 0 <= i + 1 < |list| ==> FateAt(list, box, i + 1) != Collected
        invariant nikuList == list[..Resume(i)] + Survivors(list, box, Resume(i))
        invariant heartTimer == if CollectedFrom(list, box, Resume(i)) then HEART_TICKS else old(heartTimer)
        decreases i + 2
      {
        ghost var prefix, rest := list[..i], Survivors(list, box, i + 1);
        assert list[..i + 1] == prefix + [list[i]];
        assert |prefix| == i && nikuList == prefix + [list[i]] + rest;
        PassStep(list, box, i);
        var niku := nikuList[i];
        niku := niku.(y := niku.y + NIKU_SPEED);
        assert niku == Dropped(list[i]);
        ReplaceAt(prefix, list[i], niku, rest);
        nikuList := nikuList[i := niku];
        if niku.y > HEIGHT {
          SpliceAt(prefix, niku, rest);
          nikuList := nikuList[..i] + nikuList[i + 1..];
          assert nikuList == list[..i] + Survivors(list, box, i);
        } else if Hits(CatchBox(playerX, frames[playerIndex], nikuSize), niku) {
          SpliceAt(prefix, niku, rest);
          nikuList := nikuList[..i] + nikuList[i + 1..];
          heartTimer := HEART_TICKS;
          assert nikuList == list[..Resume(i - 2)] + Survivors(list, box, Resume(i - 2));
          assert CollectedFrom(list, box, Resume(i - 2));
          i := i - 1;
        } else {
          assert nikuList == list[..i] + Survivors(list, box, i);
        }
        i := i - 1;
      }
      SurvivorsOnField(list, box, 0, nikuSize.width);
    }

    /**
     * A press at logical coordinates (x, y): inside the left button it steers
     * left, inside the right button it steers right, elsewhere it does nothing.
     */
    method PressAt(x: real, y: real)
      requires Valid()
      modifies this`moveLeft, this`moveRight, this`facingRight
      ensures Valid()
      ensures InLeftButton(x, y) ==> moveLeft && !moveRight && !facingRight
      ensures InRightButton(x, y) ==> !moveLeft && moveRight && facingRight
      ensures !InLeftButton(x, y) && !InRightButton(x, y) ==>
        moveLeft == old(moveLeft) && moveRight == old(moveRight) && facingRight == old(facingRight)
    {
      ButtonsApart(x, y);
      if InLeftButton(x, y) {
        moveLeft := true;
        moveRight := false;
        facingRight := false;
      } else if InRightButton(x, y) {
        moveRight := true;
        moveLeft := false;
        facingRight := true;
      }
    }

    /** A press at screen coordinates, converted with the current viewport scale and offsets. */
    method HandleInput(screenX: real, screenY: real, scale: real, offsetX: real, offsetY: real)
      requires Valid()
      requires scale > 0.0
      modifies this`moveLeft, this`moveRight, this`facingRight
      ensures Valid()
      ensures var x, y := ToLogical(screenX, scale, offsetX), ToLogical(screenY, scale, offsetY);
        (InLeftButton(x, y) ==> moveLeft && !moveRight && !facingRight) &&
        (InRightButton(x, y) ==> !moveLeft && moveRight && facingRight) &&
        (!InLeftButton(x, y) && !InRightButton(x, y) ==>
          moveLeft == old(moveLeft) && moveRight == old(moveRight) && facingRight == old(facingRight))
    {
      PressAt(ToLogical(screenX, scale, offsetX), ToLogical(screenY, scale, offsetY));
    }

    /** Releasing the mouse or the touch stops both directions; the facing stays. */
    method Release()
      requires Valid()
      modifies this`moveLeft, this`moveRight
      ensures Valid()
      ensures !moveLeft && !moveRight
    {
      moveLeft := false;
      moveRight := false;
    }
  }
}
