# Space debris shooter — a verified model of the simulation core

The game is a small SDL program. The player steers a 60×60 ship anywhere within a 700×750
window (its corner stays in [0, 640]×[0, 690]) and fires 20×20 bullets upwards. Fifteen pieces of square debris fall from the
top. Every overlap of a live bullet with a piece scores one point and respawns that piece
above the screen or on its top edge. A piece that reaches the ship ends the game for good, and a piece that
falls out at the bottom is respawned without scoring. The loop paces itself to one tick
every 16 milliseconds.

The model has four modules:

- `Geometry` (geometry.dfy): integer rectangles and `Intersects`, the semantics of
  `SDL_HasIntersection`. A rectangle with no area never intersects. Otherwise the open
  extents must overlap on both axes, so shared edges do not count. This is proved
  equivalent to "the rectangles share a pixel".
- `Rules` (rules.dfy): the game state as a value `World`, and the routines as functions
  over it:
  - `Initial`: pool initialisation.
  - `Input`: `handleInput`.
  - `Tick`: `updateGame`, built from `MoveShip`, `MoveBullets` and the debris loop.
  - The debris loop is `DebrisPass`, a left fold of `DebrisTurn` over the slots. The inner
    bullet loop is `ScanBullets`.
  - `Run`: many loop iterations.
  - `Inv`: the state invariant.

  `rand()` is a tape, a function from draw number to value. The state counts the draws
  made so far. Every placement of a piece of debris uses three consecutive draws: side,
  then x, then y. `-rand() % 750` uses C's truncating remainder (`CRem`).
- `RulesFacts` (rules_facts.dfy): what each step of the loops does, lifted to one tick and
  then to any number of frames. It covers:
  - which slots change;
  - how each slot settles;
  - exact conditions for scoring and for game over;
  - bounds on the score;
  - the exact number of `rand()` calls;
  - preservation of the invariant;
  - game over being permanent.
- `Game` (game.dfy): the global state as a class `Game.Game`. Its arrays `bullets` and
  `debris` are updated in place, one field at a time, by methods with the source's loops:
  - the constructor for initialisation;
  - `HandleInput`;
  - `UpdateGame`.

  Each method is proved to leave exactly the state that the corresponding `Rules` function
  gives. Each also preserves `Inv`.
- `Pacing` (pacing.dfy):
  - `time_left`.
  - The `next_game_tick` deadline as a class with the unsigned 32-bit wrap-around.
  - A schedule of frame start times, with lemmas on how it keeps pace.

When firing, the code places the bullet at `(ship.x + 20, ship.y - 20)`. From the
starting ship position that is (340, 650), and one tick later (340, 645), as `FirstShot`
proves.

## Model

| member | source | states |
|---|---|---|
| Geometry.IntersectsIffSharedPixel | main.c:204 | the collision test holds exactly when the two rectangles share at least one pixel; rectangles with no area or that only touch never collide |
| Rules.CRem | main.c:132 | C's `%` on a negative dividend: the result lies strictly between -b and b, takes the dividend's sign, and is the dividend itself when that is already in range |
| Rules.CRemIsRemainder | main.c:132 | the result of C's `%` differs from the dividend by a multiple of b, besides lying strictly between -b and b with the dividend's sign |
| Rules.RemainderUnique | main.c:132 | any two values that differ from the dividend by a multiple of b, lie strictly between -b and b and take the dividend's sign are equal, so the facts above fix C's `%` completely |
| Rules.PlaceDebris | main.c:128-132 | a piece placed from any three rand() results is square, with a side in [20, 50), lies wholly inside the screen horizontally and sits in (-750, 0] vertically |
| Rules.PlaceDebrisFollowsC | main.c:132 | the y of a placed piece is C's `%` of the negated third draw by the screen height |
| Rules.Respawn | main.c:205-208 | a respawn from any point of the rand() sequence yields such a fresh piece |
| Rules.ParkedBullet | main.c:119-124 | the starting bullet lies above the screen, so it is inactive |
| Rules.Initial | main.c:114-133 | the ship starts at (320, 670) with size 60×60; all 10 bullets are inactive; all 15 debris pieces are fresh; score 0; the game is running; cursor 0; 45 rand() calls made |
| Rules.AxisVelocity | main.c:145-159 | each velocity component is -5, 0 or 5; it is +5 exactly when the positive key is held, so right and down win; it is -5 exactly when only the negative key is held; it is 0 exactly when neither is held |
| Rules.Input | main.c:142-170 | input handling keeps the pool size and the cursor in range, and never touches the ship, debris, score, game-over flag or rand() state |
| Rules.ClampAxis | main.c:180-191 | a clamped coordinate lies in [0, hi] and is unchanged when already inside |
| Rules.MoveShip | main.c:177-191 | after moving, the ship lies in [0, 640]×[0, 690] and keeps its size; it moves by exactly the velocity whenever that stays on screen |
| Rules.MoveBullets | main.c:193-197 | the bullet loop keeps every slot |
| Rules.DebrisTurn | main.c:200-222 | one pass of the debris loop keeps every slot |
| Rules.DebrisPass | main.c:199-223 | the debris loop keeps every slot |
| Rules.Tick | main.c:172-224 | once the game is over a tick changes nothing; otherwise the ship ends in [0, 640]×[0, 690]; velocity, cursor and pool sizes are unchanged |
| Rules.HandleAll | main.c:302-308 | handling a frame's events keeps the pool size and the cursor in range |
| Rules.Frame | main.c:301-311 | one loop iteration keeps the pool size and the cursor in range |
| Rules.Run | main.c:301-319 | any number of iterations keeps the pool size and the cursor in range |
| RulesFacts.InputEffect | main.c:145-167 | velocities follow the held keys. An unrepeated space key-down while running writes slot bulletIndex only, setting its position to (ship.x + 20, ship.y - 20), and advances the cursor mod 10. In every other case bullets and cursor are untouched |
| RulesFacts.ClampIsNearest | main.c:180-191 | the clamped coordinate is the point of [0, hi] nearest the unclamped one |
| RulesFacts.ScanFacts | main.c:203-212 | the bullet loop scores at most once per bullet and draws three rand() values per point. It scores nothing exactly when no active bullet overlaps the piece, and then leaves the piece where it was. Otherwise the piece ends fresh |
| RulesFacts.ScanScoresTwice | main.c:203-212 | one piece can score twice in a single scan: after the first bullet's hit respawns it under the second bullet, the second bullet hits it too |
| RulesFacts.AnyHitMeans | main.c:204 | "some bullet hits" holds exactly when some active bullet among the first n overlaps the piece |
| RulesFacts.TurnUntouched | main.c:199-222 | the pass for slot i changes no other debris slot |
| RulesFacts.TurnSettles | main.c:200-222 | the pass for slot i settles its piece: a piece below y 750 respawns fresh; a piece hit after falling 2 respawns fresh; otherwise it falls by exactly 2 |
| RulesFacts.TurnScore | main.c:203-212 | one pass never lowers the score and adds at most one point per bullet |
| RulesFacts.TurnScoreIff | main.c:200-222 | one pass leaves the score unchanged exactly when the piece was below the screen or no active bullet overlaps it after its fall |
| RulesFacts.TurnGameOver | main.c:214-216 | after one pass the game is over exactly when it already was, or the piece was on screen and the ship overlaps where it ends up |
| RulesFacts.AllMissedMeans | main.c:199-222 | "every slot missed" in recursive form agrees with the quantified form |
| RulesFacts.BelowCount | main.c:200 | at most n of the first n slots start below the screen |
| RulesFacts.TurnDraws | main.c:200-221 | one pass calls rand() three times per point scored, plus three if the piece was below the screen |
| RulesFacts.PassUntouched | main.c:199-223 | the loop over the first n slots leaves slot m alone for m at or above n |
| RulesFacts.PassFrame | main.c:199-223 | the loop over the first n slots leaves every later slot alone |
| RulesFacts.PassSettlesSlot | main.c:199-223 | after the loop over the first n slots, slot m (below n) has settled from its starting value as in one pass |
| RulesFacts.PassSettles | main.c:199-223 | after the loop, every one of those slots has settled from its starting value |
| RulesFacts.PassScoreGrows | main.c:199-223 | the debris loop never lowers the score |
| RulesFacts.PassScoreBounds | main.c:199-223 | the debris loop adds at most one point per slot and bullet |
| RulesFacts.PassNoScoreMissed | main.c:199-223 | if the loop adds no point, every slot was missed |
| RulesFacts.PassMissedNoScore | main.c:199-223 | if every slot was missed, the loop adds no point |
| RulesFacts.PassScoreIff | main.c:199-223 | the loop adds no point exactly when every slot was missed |
| RulesFacts.PassGameOver | main.c:199-223 | after the loop the game is over exactly when it already was, or some slot that was on screen ends that slot's pass overlapping the ship |
| RulesFacts.PassStepDraws | main.c:199-223 | the turn of one slot inside the loop calls rand() three times per point it scores, plus three if the slot started the loop below the screen |
| RulesFacts.PassDraws | main.c:199-223 | the loop calls rand() three times per point scored plus three per slot that started below the screen |
| RulesFacts.TickDebrisSlot | main.c:172-224 | in a running tick, every debris slot settles against the bullets as they stand after moving |
| RulesFacts.TickScoreBounds | main.c:172-224 | a tick never lowers the score and adds at most 15×10 points |
| RulesFacts.TickScoreUnchangedIff | main.c:193-222 | a running tick leaves the score unchanged exactly when, for every piece, the piece was below y 750 or no moved active bullet overlaps it after its fall |
| RulesFacts.TickGameOverIff | main.c:172-224 | after a tick the game is over exactly when it already was, or some slot that was on screen ends the tick overlapping the moved ship |
| RulesFacts.TickMovesBullets | main.c:193-197 | in a running tick, an active bullet moves up by exactly 5 and keeps x and size; an inactive bullet is untouched |
| RulesFacts.TickDraws | main.c:172-224 | a running tick calls rand() three times per point scored plus three per piece that started below the screen |
| RulesFacts.InitialInv | main.c:114-133 | the initial state meets the invariant |
| RulesFacts.InputPreservesInv | main.c:142-170 | input handling preserves the invariant |
| RulesFacts.SettledInPlay | main.c:200-222 | a piece that settles from an in-play position is still in play: fresh, or at most 2 below the bottom edge |
| RulesFacts.TickKeepsDebrisInPlay | main.c:199-223 | a running tick keeps every debris piece in play |
| RulesFacts.TickKeepsBulletsInPlay | main.c:193-197 | a tick keeps every bullet 20×20 and within the bounds a fired or parked bullet can reach |
| RulesFacts.TickPreservesInv | main.c:172-224 | a tick preserves the invariant |
| RulesFacts.HandleAllPreservesInv | main.c:302-308 | handling any events preserves the invariant |
| RulesFacts.RunPreservesInv | main.c:301-319 | any number of loop iterations preserves the invariant |
| RulesFacts.HandleAllKeeps | main.c:302-308 | handling events leaves ship, debris, score, game-over flag and rand() state alone |
| RulesFacts.HandleAllAfterGameOver | main.c:161 | once the game is over, events leave every bullet and the cursor unchanged |
| RulesFacts.GameOverIsFinal | main.c:173-175 | once the game is over, it stays over through any number of frames, with ship, bullets, cursor, debris, score and rand() state frozen |
| RulesFacts.ScoreNeverDecreases | main.c:301-319 | the score never goes down over any number of frames |
| RulesFacts.FirstShot | main.c:164-165 | firing from the start places the bullet in slot 0 at (340, 650) and moves the cursor to 1; one tick later the bullet is at (340, 645) |
| Game.Game.constructor | main.c:114-133 | the initialising loops leave exactly the initial state, which meets the invariant |
| Game.Game.Rand | main.c:128 | rand() returns the next value of the tape and advances it by one |
| Game.Game.RespawnDebris | main.c:205-208 | writing the four fields in source order replaces slot i with the respawn at the current draw and uses three draws; no other slot changes |
| Game.Game.HandleInput | main.c:142-170 | the in-place handler leaves exactly the state `Input` describes and preserves the invariant |
| Game.Game.Steer | main.c:145-159 | the reset-then-test sequence leaves each velocity component as `AxisVelocity` gives it |
| Game.Game.Fire | main.c:163-166 | firing writes the bullet at the old cursor and no other slot, and advances the cursor mod 10 |
| Game.Game.UpdateGame | main.c:172-224 | the in-place tick leaves exactly the state `Tick` describes and preserves the invariant |
| Game.Game.MoveShipStep | main.c:177-191 | moving then clamping in place gives `MoveShip` |
| Game.Game.MoveBulletsStep | main.c:193-197 | the bullet loop advances each slot as `MoveBullets` does |
| Game.Game.DebrisStep | main.c:199-223 | the debris loop leaves the debris, score, flag and rand() state that `DebrisPass` describes |
| Game.Game.DebrisTurnAt | main.c:200-222 | one pass of the debris loop body matches `DebrisTurn` |
| Game.Game.ScanBulletsAt | main.c:203-212 | the inner bullet loop matches `ScanBullets`: slot i becomes its final box, and score and draws grow by its hits |
| Pacing.TimeLeft | main.c:286-289 | the time left is positive exactly when the deadline is still ahead; it is then the exact distance to the deadline, and otherwise 0 rather than a wrapped-around value |
| Pacing.DeadlineAfter | main.c:314 | after n frames the deadline is 16n, as long as that is below 2^32 |
| Pacing.FrameClock.constructor | main.c:38 | the deadline starts at 0, its value after no frames |
| Pacing.FrameClock.EndFrame | main.c:314-318 | the deadline advances by 16 modulo 2^32; the loop sleeps for the time left, which brings it exactly to the deadline whenever it sleeps; a deadline that stood where n frames put it now stands where n + 1 frames put it |
| Pacing.FrameStart | main.c:301-318 | frames never start before the loop did |
| Pacing.FramesNeverEarly | main.c:314-318 | frame n starts no earlier than 16n ms, and no earlier than the start plus all work done before it |
| Pacing.FramesKeepPace | main.c:314-318 | when no frame's work exceeds 16 ms, frame n starts at most 16n ms after the loop started |
| Pacing.FixedRate | main.c:314-318 | starting at time 0 with frames of at most 16 ms, frame n starts exactly at 16n ms |
| Pacing.ScheduleMatchesClock | main.c:314-318 | each frame of the schedule starts where the previous one ended plus the sleep `time_left` gives against the clock's deadline after n frames |

## Left out

- SDL start-up, window and renderer creation, and texture and font loading (main.c:40-113, 135-139) are not modelled. This includes the early returns of `loadAssets` when an image fails to load (main.c:79-82, 88-91, 97-100, 106-109). They come before the pool initialisation at main.c:114-133, so after such a failure the ship, bullets and debris stay zero-filled; every rectangle is then 0×0, nothing ever collides and nothing ever scores. The model always starts from the initialised state.
- Drawing (`render`) and shutdown (`closeSDL`) are not modelled.
- The quit event is not modelled. The event loop is modelled as a sequence of frames, each a sequence of polled events that reach `handleInput`.
- `SDL_GetTicks` and `SDL_Delay` are not modelled: the current time is a parameter and the work of each frame is a list of durations. `SDL_Delay` is taken to sleep exactly the time asked for (see the next line).
- `srand(time(NULL))` and the generator behind `rand()` are not modelled. `rand()` is an arbitrary sequence of non-negative values; nothing is assumed about their range or distribution.
- The keyboard state is reduced to the eight movement keys. Events are reduced to a key-down of space or of some other key (with its repeat flag) and any other event.
- `int` overflow in the source is not modelled: integers are unbounded. `Inv` bounds every coordinate well inside 32-bit `int`. The score grows by at most 150 per tick, but its eventual 32-bit overflow is not modelled.
- Pacing.FrameStart: the schedule lemmas count time in unbounded milliseconds and do not model the 32-bit wrap of the clock. `EndFrame` does model the wrap of `next_game_tick`, and `ScheduleMatchesClock` requires the times to be below 2^32. The schedule also takes each sleep as exact, so a frame that sleeps starts exactly on its deadline. `SDL_Delay` only promises to sleep at least that long. `FramesKeepPace` and `FixedRate` do not cover oversleeping.
- Rules.ScanBullets carries no contract of its own; its properties are stated by `RulesFacts.ScanFacts`.
