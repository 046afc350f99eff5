/** The game's rules as functions on a value of the whole game state: pool initialisation,
    the input mapping, and one simulation tick. The class in module Game performs the same
    steps in place and is proved to agree with these functions. */
module Rules {
  import opened Geometry

  const ScreenWidth := 700
  const ScreenHeight := 750
  const ShipWidth := 60
  const ShipHeight := 60
  const BulletWidth := 20
  const BulletHeight := 20
  const BulletSpeed := 5
  const ShipSpeed := 5
  const DebrisSpeed := 2
  const MaxBullets := 10
  const MaxDebris := 15

  /** The values successive calls of rand() return, from the first call on; the generator
      itself is not modelled, only that every value is non-negative. */
  type Tape = nat -> nat

  /** C's `%` on int, which truncates toward zero (Dafny's `%` never yields a negative value). */
  function CRem(a: int, b: int): (r: int)
    requires b > 0
    ensures -b < r < b
    ensures a >= 0 ==> 0 <= r
    ensures a <= 0 ==> r <= 0
    ensures -b < a < b ==> r == a
  {
    if a >= 0 then a % b else -((-a) % b)
  }

  /** CRem is C's remainder: it differs from the dividend by a multiple of the divisor, lies
      strictly between -b and b and takes the dividend's sign; only one value does all three. */
  lemma CRemIsRemainder(a: int, b: int)
    requires b > 0
    ensures (a - CRem(a, b)) % b == 0
    ensures -b < CRem(a, b) < b && (a >= 0 ==> 0 <= CRem(a, b)) && (a <= 0 ==> CRem(a, b) <= 0)
  {
    var c := if a >= 0 then a else -a;
    assert c - c % b == (c / b) * b;
    if a >= 0 {
      MultipleRem(c / b, b);
    } else {
      assert a - CRem(a, b) == (-(c / b)) * b;
      MultipleRem(-(c / b), b);
    }
  }

  /** Only one value meets the three facts above, so they fix the remainder. */
  lemma RemainderUnique(a: int, b: int, r: int, s: int)
    requires b > 0
    requires (a - r) % b == 0 && -b < r < b && (a >= 0 ==> 0 <= r) && (a <= 0 ==> r <= 0)
    requires (a - s) % b == 0 && -b < s < b && (a >= 0 ==> 0 <= s) && (a <= 0 ==> s <= 0)
    ensures r == s
  {
    ExactQuotient(a - r, b);
    ExactQuotient(a - s, b);
    var k := (a - s) / b - (a - r) / b;
    assert r - s == k * b;
    OnlyZeroMultiple(k, b);
  }

  /** A number with no remainder is its quotient times the divisor. */
  lemma ExactQuotient(x: int, b: int)
    requires b > 0 && x % b == 0
    ensures x == (x / b) * b
  {
  }

  /** The only multiple of b strictly between -b and b is 0. */
  lemma OnlyZeroMultiple(k: int, b: int)
    requires b > 0 && -b < k * b < b
    ensures k == 0
  {
    if k >= 1 {
      assert false;
    } else if k <= -1 {
      assert false;
    }
  }

  /** A multiple of b leaves no remainder. */
  lemma MultipleRem(q: int, b: int)
    requires b > 0
    ensures (q * b) % b == 0
  {
    var d, m := (q * b) / b, (q * b) % b;
    assert q * b == d * b + m && 0 <= m < b;
    assert m == (q - d) * b;
    OnlyZeroMultiple(q - d, b);
  }

  // ---------------------------------------------------------------- debris pool

  /** The shape every freshly placed debris rectangle has: square, side in [20, 50),
      fully inside the screen horizontally, and above or at the top edge. */
  predicate FreshDebris(d: Rect) {
    d.w == d.h && 20 <= d.w < 50 &&
    0 <= d.x < ScreenWidth - d.w &&
    -ScreenHeight < d.y <= 0
  }

  /** What a debris rectangle may look like at any time: fresh, or fallen to at most
      one step below the bottom edge. */
  predicate DebrisInPlay(d: Rect) {
    d.w == d.h && 20 <= d.w < 50 &&
    0 <= d.x < ScreenWidth - d.w &&
    -ScreenHeight < d.y <= ScreenHeight + DebrisSpeed
  }

  /** The rectangle placed from three rand() results: side, then x, then y. The y is C's
      remainder of the negated draw, which for a non-negative draw is the negated remainder of
      the draw itself (PlaceDebrisFollowsC). */
  function PlaceDebris(r0: nat, r1: nat, r2: nat): (d: Rect)
    ensures FreshDebris(d)
  {
    var size := r0 % 30 + 20;
    Rect(r1 % (ScreenWidth - size), -(r2 % ScreenHeight), size, size)
  }

  /** The placement computes y exactly as C's `%` does on the negated draw. */
  lemma PlaceDebrisFollowsC(r0: nat, r1: nat, r2: nat)
    ensures PlaceDebris(r0, r1, r2).y == CRem(-(r2 as int), ScreenHeight)
  {
  }

  /** A respawn that starts at draw number k of the tape; it consumes draws k, k+1 and k+2. */
  function Respawn(tape: Tape, k: nat): (d: Rect)
    ensures FreshDebris(d)
  {
    PlaceDebris(tape(k), tape(k + 1), tape(k + 2))
  }

  /** A bullet slot parked off-screen, as the pool starts. */
  function ParkedBullet(): (b: Rect)
    ensures b.y < 0
  {
    Rect(-BulletWidth, -BulletHeight, BulletWidth, BulletHeight)
  }

  // ---------------------------------------------------------------- game state

  /** All the state the simulation touches. `drawn` counts the rand() calls made so far. */
  datatype World = World(
    ship: Rect, vx: int, vy: int,
    bullets: seq<Rect>, bulletIndex: int,
    debris: seq<Rect>,
    score: int, gameOver: bool,
    drawn: nat)

  /** The state after the pools are initialised: the ship centred near the bottom, every
      bullet parked, every debris slot placed from the tape in slot order. */
  function Initial(tape: Tape): (w: World)
    ensures |w.bullets| == MaxBullets && |w.debris| == MaxDebris
    ensures w.ship == Rect(320, 670, ShipWidth, ShipHeight)
    ensures forall j :: 0 <= j < MaxBullets ==> w.bullets[j].y < 0
    ensures forall i :: 0 <= i < MaxDebris ==> FreshDebris(w.debris[i])
    ensures w.score == 0 && !w.gameOver && w.bulletIndex == 0 && w.drawn == 3 * MaxDebris
  {
    World(
      Rect((ScreenWidth - ShipWidth) / 2, ScreenHeight - ShipHeight - 20, ShipWidth, ShipHeight),
      0, 0,
      seq(MaxBullets, _ => ParkedBullet()), 0,
      seq(MaxDebris, i requires 0 <= i < MaxDebris => Respawn(tape, 3 * i)),
      0, false,
      3 * MaxDebris)
  }

  // ---------------------------------------------------------------- input mapping

  /** The eight keys the ship is steered with. */
  datatype Keys = Keys(
    left: bool, keyA: bool, right: bool, keyD: bool,
    up: bool, keyW: bool, down: bool, keyS: bool)

  datatype KeySym = Space | OtherKey

  /** The event handed to the input handler; repeat is true for an auto-repeated key-down. */
  datatype Event = KeyDown(sym: KeySym, repeat: bool) | OtherEvent

  /** Velocity on one axis: the positive direction is tested last, so it wins a tie. */
  function AxisVelocity(negHeld: bool, posHeld: bool): (v: int)
    ensures v == -ShipSpeed || v == 0 || v == ShipSpeed
    ensures v == ShipSpeed <==> posHeld
    ensures v == -ShipSpeed <==> negHeld && !posHeld
    ensures v == 0 <==> !negHeld && !posHeld
  {
    if posHeld then ShipSpeed else if negHeld then -ShipSpeed else 0
  }

  /** The event fires a bullet: a fresh space key-down while the game is running. */
  predicate Fires(w: World, ev: Event) {
    !w.gameOver && ev.KeyDown? && !ev.repeat && ev.sym == Space
  }

  /** The bullet slot as the fire action leaves it: moved to just above the ship's middle. */
  function Fired(b: Rect, ship: Rect): Rect {
    b.(x := ship.x + (ShipWidth - BulletWidth) / 2, y := ship.y - BulletHeight)
  }

  /** handleInput: velocity from the held keys, then possibly one bullet at the cursor. */
  function Input(w: World, keys: Keys, ev: Event): (r: World)
    requires |w.bullets| == MaxBullets && 0 <= w.bulletIndex < MaxBullets
    ensures |r.bullets| == MaxBullets && 0 <= r.bulletIndex < MaxBullets
    ensures r.ship == w.ship && r.debris == w.debris && r.score == w.score
    ensures r.gameOver == w.gameOver && r.drawn == w.drawn
  {
    var steered := w.(vx := AxisVelocity(keys.left || keys.keyA, keys.right || keys.keyD),
                      vy := AxisVelocity(keys.up || keys.keyW, keys.down || keys.keyS));
    if Fires(w, ev) then
      var i := w.bulletIndex;
      steered.(bullets := w.bullets[i := Fired(w.bullets[i], w.ship)],
               bulletIndex := (i + 1) % MaxBullets)
    else
      steered
  }

  // ---------------------------------------------------------------- simulation step

  function Dist(a: int, b: int): nat {
    if a < b then b - a else a - b
  }

  /** The two clamping tests of one axis, applied in the source's order. */
  function ClampAxis(v: int, hi: int): (r: int)
    requires 0 <= hi
    ensures 0 <= r <= hi
    ensures 0 <= v <= hi ==> r == v
  {
    var low := if v < 0 then 0 else v;
    if low > hi then hi else low
  }

  /** Step 1 of a tick: integrate the velocity and keep the ship on the playfield. */
  function MoveShip(s: Rect, vx: int, vy: int): (r: Rect)
    ensures 0 <= r.x <= ScreenWidth - ShipWidth && 0 <= r.y <= ScreenHeight - ShipHeight
    ensures r.w == s.w && r.h == s.h
    ensures 0 <= s.x + vx <= ScreenWidth - ShipWidth ==> r.x == s.x + vx
    ensures 0 <= s.y + vy <= ScreenHeight - ShipHeight ==> r.y == s.y + vy
  {
    s.(x := ClampAxis(s.x + vx, ScreenWidth - ShipWidth),
       y := ClampAxis(s.y + vy, ScreenHeight - ShipHeight))
  }

  /** A bullet slot is active while its y is not negative. */
  predicate Active(b: Rect) {
    b.y >= 0
  }

  function AdvanceBullet(b: Rect): Rect {
    if Active(b) then b.(y := b.y - BulletSpeed) else b
  }

  /** Step 2 of a tick: every active bullet moves up. */
  function MoveBullets(bs: seq<Rect>): (r: seq<Rect>)
    ensures |r| == |bs|
  {
    seq(|bs|, j requires 0 <= j < |bs| => AdvanceBullet(bs[j]))
  }

  /** Debris moved down by one step. */
  function Fall(d: Rect): Rect {
    d.(y := d.y + DebrisSpeed)
  }

  /** An active bullet that overlaps the debris box. */
  predicate Hits(b: Rect, d: Rect) {
    Active(b) && Intersects(b, d)
  }

  /** Some active bullet among 0 .. n-1 overlaps the box. */
  predicate AnyHit(bs: seq<Rect>, n: nat, d: Rect)
    requires n <= |bs|
    decreases n
  {
    n > 0 && (AnyHit(bs, n - 1, d) || Hits(bs[n - 1], d))
  }

  /** Where one debris slot stands after testing a number of bullets against it. */
  datatype Scan = Scan(box: Rect, drawn: nat, hits: nat)

  /** The inner collision loop run over bullets 0 .. n-1: every bullet that hits the box as it
      stands at that moment respawns the box and counts once. */
  function ScanBullets(bs: seq<Rect>, n: nat, d: Rect, tape: Tape, k: nat): Scan
    requires n <= |bs|
    decreases n
  {
    if n == 0 then Scan(d, k, 0)
    else
      var s := ScanBullets(bs, n - 1, d, tape, k);
      if Hits(bs[n - 1], s.box) then Scan(Respawn(tape, s.drawn), s.drawn + 3, s.hits + 1)
      else s
  }

  /** How a debris slot that starts a tick as d ends it as r, given the moved bullets: below
      the screen it is respawned; on screen it falls one step and is respawned exactly when some
      active bullet overlaps the fallen box. */
  predicate Settles(d: Rect, r: Rect, bs: seq<Rect>) {
    if d.y > ScreenHeight then FreshDebris(r)
    else if AnyHit(bs, |bs|, Fall(d)) then FreshDebris(r)
    else r == Fall(d)
  }

  /** The part of the state the debris loop changes. */
  datatype Pass = Pass(debris: seq<Rect>, score: int, gameOver: bool, drawn: nat)

  /** The turn of debris slot i: an on-screen slot falls, is tested against every bullet and
      then against the ship; a slot below the screen is respawned and scores nothing. */
  function DebrisTurn(ship: Rect, bs: seq<Rect>, p: Pass, i: nat, tape: Tape): (r: Pass)
    requires i < |p.debris|
    ensures |r.debris| == |p.debris|
  {
    var d := p.debris[i];
    if d.y <= ScreenHeight then
      var s := ScanBullets(bs, |bs|, Fall(d), tape, p.drawn);
      Pass(p.debris[i := s.box], p.score + s.hits, p.gameOver || Intersects(ship, s.box), s.drawn)
    else
      Pass(p.debris[i := Respawn(tape, p.drawn)], p.score, p.gameOver, p.drawn + 3)
  }

  /** The debris loop run over slots 0 .. n-1. */
  function DebrisPass(ship: Rect, bs: seq<Rect>, p: Pass, n: nat, tape: Tape): (r: Pass)
    requires n <= |p.debris|
    ensures |r.debris| == |p.debris|
    decreases n
  {
    if n == 0 then p
    else DebrisTurn(ship, bs, DebrisPass(ship, bs, p, n - 1, tape), n - 1, tape)
  }

  /** The state the debris loop of a running tick starts from. */
  function PassOf(w: World): Pass {
    Pass(w.debris, w.score, w.gameOver, w.drawn)
  }

  /** updateGame: nothing when the game is over; otherwise move the ship, then the bullets,
      then run the debris loop with the moved ship and bullets. The game-over flag, once set,
      freezes everything; a running tick keeps the ship on the playfield. */
  function Tick(w: World, tape: Tape): (r: World)
    ensures w.gameOver ==> r == w
    ensures !w.gameOver ==>
      0 <= r.ship.x <= ScreenWidth - ShipWidth && 0 <= r.ship.y <= ScreenHeight - ShipHeight
    ensures |r.bullets| == |w.bullets| && |r.debris| == |w.debris|
    ensures r.vx == w.vx && r.vy == w.vy && r.bulletIndex == w.bulletIndex
  {
    if w.gameOver then w
    else
      var ship := MoveShip(w.ship, w.vx, w.vy);
      var bs := MoveBullets(w.bullets);
      var p := DebrisPass(ship, bs, PassOf(w), |w.debris|, tape);
      w.(ship := ship, bullets := bs, debris := p.debris, score := p.score,
         gameOver := p.gameOver, drawn := p.drawn)
  }

  // ---------------------------------------------------------------- frames

  /** One input event as the handler sees it, with the key state read at that moment. */
  datatype Poll = Poll(keys: Keys, event: Event)

  /** The events of one loop iteration, handled in order. */
  function HandleAll(w: World, polls: seq<Poll>): (r: World)
    requires |w.bullets| == MaxBullets && 0 <= w.bulletIndex < MaxBullets
    ensures |r.bullets| == MaxBullets && 0 <= r.bulletIndex < MaxBullets
    decreases |polls|
  {
    if polls == [] then w
    else HandleAll(Input(w, polls[0].keys, polls[0].event), polls[1..])
  }

  /** One iteration of the game loop without drawing: the events, then one tick. */
  function Frame(w: World, polls: seq<Poll>, tape: Tape): (r: World)
    requires |w.bullets| == MaxBullets && 0 <= w.bulletIndex < MaxBullets
    ensures |r.bullets| == MaxBullets && 0 <= r.bulletIndex < MaxBullets
  {
    Tick(HandleAll(w, polls), tape)
  }

  /** Several iterations of the game loop. */
  function Run(w: World, frames: seq<seq<Poll>>, tape: Tape): (r: World)
    requires |w.bullets| == MaxBullets && 0 <= w.bulletIndex < MaxBullets
    ensures |r.bullets| == MaxBullets && 0 <= r.bulletIndex < MaxBullets
    decreases |frames|
  {
    if frames == [] then w
    else Run(Frame(w, frames[0], tape), frames[1..], tape)
  }

  // ---------------------------------------------------------------- invariant

  /** What a bullet slot looks like at any time: 20 by 20, fired from an in-bounds ship or parked. */
  predicate BulletInPlay(b: Rect) {
    b.w == BulletWidth && b.h == BulletHeight &&
    -BulletWidth <= b.x <= ScreenWidth - ShipWidth + (ShipWidth - BulletWidth) / 2 &&
    -BulletHeight <= b.y <= ScreenHeight - ShipHeight - BulletHeight
  }

  /** The state invariant. It also bounds every coordinate well inside 32-bit int, so the
      source's int arithmetic on positions never overflows. */
  predicate Inv(w: World) {
    |w.bullets| == MaxBullets && |w.debris| == MaxDebris &&
    0 <= w.bulletIndex < MaxBullets &&
    w.ship.w == ShipWidth && w.ship.h == ShipHeight &&
    0 <= w.ship.x <= ScreenWidth - ShipWidth && 0 <= w.ship.y <= ScreenHeight - ShipHeight &&
    (w.vx == -ShipSpeed || w.vx == 0 || w.vx == ShipSpeed) &&
    (w.vy == -ShipSpeed || w.vy == 0 || w.vy == ShipSpeed) &&
    (forall j :: 0 <= j < |w.bullets| ==> BulletInPlay(w.bullets[j])) &&
    (forall i :: 0 <= i < |w.debris| ==> DebrisInPlay(w.debris[i])) &&
    w.score >= 0
  }
}
