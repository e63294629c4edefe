# Dog game tick: a Dafny model

This project models the game-state update of a small browser game. A dog moves
left and right along the bottom of an 800 x 600 logical playfield. Pieces of
meat ("niku") fall from the top, and the dog catches them. A heart shows for a
few frames after each catch. Two on-screen buttons steer the dog.

The model covers the per-frame update in `game.js` with the drawing removed.
That is the body of `gameLoop`, plus `createNiku`, `handleInput` and
`stopMovement`.

- `rules.dfy`, module `GameRules`: pure definitions over values. It holds the
  constants, steering, clamping, the walk animation, the spawn arithmetic, the
  asymmetric catch box, and the fate of every niku in the reverse
  fall-and-collect pass (`FateAt`, `Survivors`, `CollectedFrom`). It also holds
  the heart countdown, the button hit tests and the viewport conversion, with
  lemmas that say what these mean.
- `game.dfy`, module `GameLoop`: class `Game`. Its fields are the closure
  variables that the loop updates in place (`playerX`, `playerIndex`,
  `heartTimer`, `moveLeft`, `moveRight`, `facingRight`, `lastNikuTime`,
  `nikuList`). `Tick` runs the steps in the source's order.
  - The refill `while` loop is a `while` loop in `SpawnNiku`.
  - The reverse `for` loop is a `while` loop in `FallAndCollect`. It splices
    `nikuList` in place and keeps the extra `i--` after a catch.
  - Each method is proved against the `GameRules` definitions.
  - `Valid()` is the invariant kept between ticks: the player is inside the
    playfield, every niku is on the field, and the heart timer stays in
    `0..3`.

Inputs from the host become parameters:
- `Date.now()` is `now` in `Tick`.
- The `Math.random()` values are `randoms`. Each is in `[0, 1)`, one per
  spawned niku.
- The loaded image sizes are constructor parameters.

JavaScript numbers are modelled as exact `real`s (positions) and `int`s (the
niku's y, times, counters).

Four behaviours of the code worth noting:
- When both movement flags are set, left wins. The code uses an `if` /
  `else if` chain (game.js:98-104).
- A release clears both flags (game.js:207-210). It does not clear only the
  released direction.
- The reverse pass does skip a niku. After a catch at index `i`, the extra
  `i--` at game.js:151 steps over index `i - 1`, so that niku neither moves nor
  is checked for a catch that frame (`SkipQuirk`, `SkipQuirkExample`).
- The clamp uses the width of the frame in effect before the animation step
  (game.js:109-110). So the player is inside the playfield for the frame it was
  clamped with (`Valid`, `Clamp`). When the two frames differ in width, the
  current frame may not fit.

## Model

| member | source | states |
|---|---|---|
| `GameRules.Steer` | game.js:98-104 | The x moves exactly when a flag is set, and then by exactly the speed 2. Left wins: with `moveLeft` the player moves left and faces left even when `moveRight` is set. With only `moveRight` the player moves right and faces right. With no move, the facing is kept. |
| `GameRules.Clamp` | game.js:107-111 | For any prior x, the result lies inside `[0, 800 - w]`. It is the inside position nearest to x, and an inside x is unchanged. Needs `w <= 800`. |
| `GameRules.NextFrame` | game.js:114-118 | The walk frame stays in `{0, 1}`. It changes on every moving frame and resets to 0 when neither flag is set. |
| `GameRules.FramesAlternate` | game.js:114-118 | After n moving frames the index is `(index + n) % 2`, so the frames cycle 0, 1, 0, 1, ... |
| `GameRules.SpawnDue` | game.js:122 | The timer spawn is due when strictly more than 2000 ms have passed since the last timer spawn. (Definition; its boundary is stated by `SpawnTimerBoundary`.) |
| `GameRules.SpawnTimerBoundary` | game.js:121-130 | The interval test is strict: 2000 ms is not due and 2001 ms is. From an empty list a due frame spawns 3. With 3 on screen, a due frame spawns exactly 1 and a frame that is not due spawns none. |
| `GameRules.Fraction` | game.js:84 | `Math.random() * span` lies in `[0, span)` for a positive span. |
| `GameRules.SpawnX` | game.js:83-85 | A spawned niku's x lies in `[0, 800 - nikuWidth)`. |
| `GameRules.SpawnXCovers` | game.js:84 | Every x in `[0, 800 - nikuWidth)` is the spawn position of some random value in `[0, 1)`. |
| `GameRules.SpawnCount` | game.js:121-130 | Timer spawn plus refill reaches at least 3 niku. A due timer spawns at least one. Any spawn beyond the timer one stops at exactly 3. At most 3 spawn in one frame. |
| `GameRules.Spawns` | game.js:83-87 | One niku per random value. Each has y = 0 and x inside the spawn range. |
| `GameRules.Hits` | game.js:145-148 | The catch test: the niku's top is between `400 - nikuHeight` and `400 + playerHeight`, and its x is between `playerX - nikuWidth/2` and `playerX + playerWidth - nikuWidth/2`, all bounds inclusive. (Definition; read geometrically by the next three lemmas.) |
| `GameRules.HitsIsCentreOverPlayer` | game.js:145-148 | The catch test holds exactly when the niku's vertical extent touches the player's and the niku's centre column lies over the player sprite. |
| `GameRules.HitsAtPlayerCorner` | game.js:145-148 | A niku at the player's own corner `(playerX, 400)` is caught when the player is at least half a niku wide. |
| `GameRules.MissesAtRightEdge` | game.js:145-148 | A niku at `x = playerX + spriteWidth` is not caught when the niku has any width. |
| `GameRules.Dropped` | game.js:135 | A visited niku moved down by 5 with its x kept. (Definition; used by `FateRules`.) |
| `GameRules.FateAt` | game.js:133-152 | The fate of index k in the pass from the top index down: skipped when the niku above was caught, else missed when its new y is greater than 600 (below the bottom edge), else caught when it drops into the catch box, else it falls. Two neighbours are never both caught in one pass. |
| `GameRules.Survivors` | game.js:133-152 | The niku of indices k.. that the pass keeps, in list order: a skipped one unchanged, a falling one moved down. The pass never adds a niku: there are at most `|list| - k` survivors. |
| `GameRules.CollectedFrom` | game.js:145-150 | Whether the pass catches a niku of indices k... A catch needs some niku that dropped into the catch box while still on screen. |
| `GameRules.FateRules` | game.js:133-152 | A visited niku moves down exactly 5 and keeps its x. It is removed as missed exactly when its new y is greater than 600 (below the bottom edge). It is removed as caught exactly when it is still on screen and inside the catch box. Otherwise it is kept. A niku is skipped (neither moved nor checked) exactly when the niku above it was caught. |
| `GameRules.SkipQuirk` | game.js:145-151 | After a catch at index k > 0, index k - 1 is skipped and survives unchanged in its place before the survivors above. |
| `GameRules.SkipQuirkExample` | game.js:133-152 | Two identical niku that would both be caught: only the upper one is caught, and the lower one stays as it was. |
| `GameRules.KeptFromIndices` | game.js:133-152 | Every listed kept index is in range and its niku is kept. |
| `GameRules.KeptFromAscending` | game.js:133-152 | The kept indices are listed in strictly ascending order. |
| `GameRules.KeptFromComplete` | game.js:133-152 | Every index whose niku is kept is listed. |
| `GameRules.PassStep` | game.js:133-152 | One step at index i, when the niku above was not caught. A missed niku leaves the survivors and the catch flag as they were. A falling niku is prepended moved down. A catch at i > 0 marks index i - 1 as skipped, and the pass resumes below it with `list[..i-1]` untouched. |
| `GameRules.SurvivorsInOrder` | game.js:133-152 | The p-th survivor is the niku of the p-th kept index, moved down unless skipped. So the survivors keep their relative order and nothing else survives. |
| `GameRules.SurvivorsOnField` | game.js:133-142 | If every niku is on the field before the pass, every survivor is too: y in `0..600` and x in the spawn range. |
| `GameRules.CollectedFromWitness` | game.js:145-150 | The pass catches something exactly when some index has the fate Collected. |
| `GameRules.CountDown` | game.js:156-159 | The heart timer never goes negative. It drops by exactly 1 when positive and stays at 0 otherwise. |
| `GameRules.TimerAfterTicks` | game.js:156-159 | Without catches the timer after n frames is `t - n`, or 0 once n >= t. |
| `GameRules.HeartShowsForThreeTicks` | game.js:150-159 | A catch leaves the timer at 2 at the end of its frame. When no other catch follows, the heart is drawn on exactly the 3 frames from the catch on. |
| `GameRules.InLeftButton` | game.js:184-185 | Strictly inside the left button, `10 < x < 60` and `450 < y < 500`. (Definition; used by `PressAt`.) |
| `GameRules.InRightButton` | game.js:189-190 | Strictly inside the right button, `700 < x < 750` and `450 < y < 500`. (Definition; used by `PressAt`.) |
| `GameRules.ButtonsApart` | game.js:184-190 | No logical point is strictly inside both buttons. |
| `GameRules.ToLogical` | game.js:181-182 | Screen to logical coordinate, `(p - offset) / scale`, for `scale > 0`. Converting the result back to the screen gives `p` again. |
| `GameRules.ViewportRoundTrip` | game.js:181-182 | Screen-to-logical (`(p - offset) / scale`) and logical-to-screen (`l * scale + offset`) are inverse for `scale > 0`. |
| `GameLoop.Game.constructor` | game.js:41-60 | Start state: the player is centred on frame 0 (`400 - w0/2`), the frame is 0, the heart is 0, no flags are set, it faces left, the list is empty and `lastNikuTime` is 0. `Valid()` holds. |
| `GameLoop.Game.Tick` | game.js:90-177 | One frame keeps `Valid()` and leaves the heart timer below 3. The new x and facing are `Clamp(Steer(...))` with the old frame's width. The frame is `NextFrame`. `lastNikuTime` becomes `now` only when due. The list is the survivors of the old list plus the spawned niku. The heart is 2 after a catch, and otherwise counted down. The flags are unchanged. |
| `GameLoop.Game.MovePlayer` | game.js:97-118 | Steering, clamping with the current frame's width, then the animation step, keeping `Valid()`. |
| `GameLoop.Game.CreateNiku` | game.js:83-87 | Appends exactly one niku at `(SpawnX(random), 0)`. |
| `GameLoop.Game.SpawnNiku` | game.js:120-130 | After the scheduler there are at least 3 niku. The old niku are an unchanged prefix, followed by `SpawnCount` new ones from the first random values. The timer restarts at `now` only when due. |
| `GameLoop.Game.FallAndCollect` | game.js:132-153 | The reverse in-place pass (extra `i--` included) leaves exactly `Survivors` of the list. The heart timer becomes 3 exactly when something was caught. `Valid()` is kept. |
| `GameLoop.Game.CountDownHeart` | game.js:155-159 | The timer becomes `CountDown` of its old value. |
| `GameLoop.Game.PressAt` | game.js:180-195 | A press strictly inside the left box (10,450)-(60,500) sets left, clears right and faces left. The right box (700,450)-(750,500) does the mirror. Anywhere else, nothing changes. |
| `GameLoop.Game.HandleInput` | game.js:180-195 | The same as `PressAt`, applied to the screen point converted with `ToLogical`. |
| `GameLoop.Game.Release` | game.js:207-210 | Both movement flags are cleared. The facing and everything else are unchanged. |

## Left out

- Drawing is not modelled: the background, niku, heart, mirrored player and button images (game.js:91-95, 136, 157, 161-175). It is presentation through the canvas API.
- Image loading (game.js:17-23, 31-39) is asynchronous I/O. The sprite sizes are constructor parameters instead.
- `requestAnimationFrame` and the event-listener wiring, including `preventDefault` (game.js:80, 176, 197-205, 212-215), are host scheduling. `Tick`, `PressAt`/`HandleInput` and `Release` are the handlers they call.
- `setScale` (game.js:63-74) is not modelled. It reads the window size, computes a floating-point scale and writes canvas styles. Only the coordinate conversion it feeds is modelled (`ToLogical`, `ToScreen`).
- `Date.now()` and `Math.random()` are host calls. They are the parameters `now` and `randoms` of `Tick`. `Tick` requires at least as many random values as the frame spawns niku (`SpawnCount`), and uses only the first ones.
- JavaScript's double-precision rounding is not modelled. Positions are exact reals.
- GameLoop.Game.HandleInput: requires `scale > 0`. With a zero scale, the source divides by zero, and the resulting infinities or NaN hit no button.
- GameLoop.Game.constructor: requires each walk frame to be at most 800 wide and the niku narrower than 800. With a wider sprite the source's clamp and spawn range become negative or empty, and the on-field invariant no longer holds.
