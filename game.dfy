/** The game's global state and the three routines that change it in place: pool
    initialisation, the input handler and the per-tick update. Each routine is proved to
    leave the state that the corresponding function of module Rules describes. */
module Game {
  import opened Geometry
  import opened Rules
  import RulesFacts

  class Game {
    var ship: Rect
    var vx: int
    var vy: int
    const bullets: array<Rect>
    var bulletIndex: int
    const debris: array<Rect>
    var score: int
    var gameOver: bool
    /** The results rand() gives, in call order, and how many of them have been used. */
    const tape: Tape
    var drawn: nat

    ghost predicate Valid()
      reads this
    {
      bullets.Length == MaxBullets && debris.Length == MaxDebris && bullets != debris &&
      0 <= bulletIndex < MaxBullets
    }

    /** The whole state as a value. */
    ghost function Snapshot(): World
      reads this, bullets, debris
    {
      World(ship, vx, vy, bullets[..], bulletIndex, debris[..], score, gameOver, drawn)
    }

    /** Sets up the ship and both pools, drawing the debris from the tape in slot order. */
    constructor (tape: Tape)
      ensures Valid() && fresh(bullets) && fresh(debris)
      ensures this.tape == tape
      ensures Snapshot() == Initial(tape)
      ensures Inv(Snapshot())
    {
      ship := Rect((ScreenWidth - ShipWidth) / 2, ScreenHeight - ShipHeight - 20, ShipWidth, ShipHeight);
      vx, vy := 0, 0;
      bullets := new Rect[MaxBullets];
      debris := new Rect[MaxDebris];
      bulletIndex := 0;
      score := 0;
      gameOver := false;
      this.tape := tape;
      drawn := 0;
      new;
      for i := 0 to MaxBullets
        modifies bullets
        invariant forall m :: 0 <= m < i ==> bullets[m] == ParkedBullet()
      {
        bullets[i] := Rect(-BulletWidth, -BulletHeight, BulletWidth, BulletHeight);
      }
      for i := 0 to MaxDebris
        modifies this`drawn, debris
        invariant drawn == 3 * i
        invariant forall m :: 0 <= m < i ==> debris[m] == Respawn(tape, 3 * m)
      {
        RespawnDebris(i);
      }
      assert Snapshot() == Initial(tape);
      RulesFacts.InitialInv(tape);
    }

    /** One call of rand(). */
    method Rand() returns (v: nat)
      modifies this`drawn
      ensures v == tape(old(drawn)) && drawn == old(drawn) + 1
    {
      v := tape(drawn);
      drawn := drawn + 1;
    }

    /** Gives debris slot i a fresh size and position, one field at a time. */
    method RespawnDebris(i: nat)
      requires Valid() && i < MaxDebris
      modifies this`drawn, debris
      ensures debris[..] == old(debris[..])[i := Respawn(tape, old(drawn))]
      ensures drawn == old(drawn) + 3
    {
      var r0 := Rand();
      debris[i] := debris[i].(w := r0 % 30 + 20);
      debris[i] := debris[i].(h := debris[i].w);
      var r1 := Rand();
      debris[i] := debris[i].(x := r1 % (ScreenWidth - debris[i].w));
      var r2 := Rand();
      debris[i] := debris[i].(y := CRem(-(r2 as int), ScreenHeight));
      PlaceDebrisFollowsC(r0, r1, r2);
    }

    /** handleInput: recompute the velocity from the held keys, then fire on a fresh space
        key-down while the game is running. */
    method HandleInput(keys: Keys, ev: Event)
      requires Valid()
      modifies this`vx, this`vy, this`bulletIndex, bullets
      ensures Valid()
      ensures Snapshot() == Input(old(Snapshot()), keys, ev)
      ensures Inv(old(Snapshot())) ==> Inv(Snapshot())
    {
      ghost var w := Snapshot();
      if Inv(w) {
        RulesFacts.InputPreservesInv(w, keys, ev);
      }
      Steer(keys);
      assert Snapshot() == w.(vx := vx, vy := vy);
      if !gameOver && ev.KeyDown? && !ev.repeat {
        match ev.sym
        case Space =>
          Fire();
        case OtherKey =>
      }
    }

    /** The velocity part of handleInput: reset, then one test per direction. */
    method Steer(keys: Keys)
      modifies this`vx, this`vy
      ensures vx == AxisVelocity(keys.left || keys.keyA, keys.right || keys.keyD)
      ensures vy == AxisVelocity(keys.up || keys.keyW, keys.down || keys.keyS)
    {
      vx := 0;
      vy := 0;
      if keys.left || keys.keyA {
        vx := -ShipSpeed;
      }
      if keys.right || keys.keyD {
        vx := ShipSpeed;
      }
      if keys.up || keys.keyW {
        vy := -ShipSpeed;
      }
      if keys.down || keys.keyS {
        vy := ShipSpeed;
      }
    }

    /** The space-key branch of handleInput: place the bullet at the cursor, advance the cursor. */
    method Fire()
      requires Valid()
      modifies this`bulletIndex, bullets
      ensures Valid()
      ensures bullets[..] == old(bullets[..])[old(bulletIndex) := Fired(old(bullets[bulletIndex]), ship)]
      ensures bulletIndex == (old(bulletIndex) + 1) % MaxBullets
    {
      bullets[bulletIndex] := bullets[bulletIndex].(x := ship.x + (ShipWidth - BulletWidth) / 2);
      bullets[bulletIndex] := bullets[bulletIndex].(y := ship.y - BulletHeight);
      bulletIndex := (bulletIndex + 1) % MaxBullets;
    }

    /** updateGame: one simulation tick. */
    method UpdateGame()
      requires Valid()
      modifies this`ship, this`score, this`gameOver, this`drawn, bullets, debris
      ensures Valid()
      ensures Snapshot() == Tick(old(Snapshot()), tape)
      ensures Inv(old(Snapshot())) ==> Inv(Snapshot())
    {
      if gameOver {
        return;
      }
      ghost var w := Snapshot();
      if Inv(w) {
        RulesFacts.TickPreservesInv(w, tape);
      }
      MoveShipStep();
      MoveBulletsStep();
      ghost var p := Pass(debris[..], score, gameOver, drawn);
      assert p == PassOf(w);
      DebrisStep();
      assert Snapshot() == w.(ship := ship, bullets := bullets[..], debris := debris[..], score := score,
                              gameOver := gameOver, drawn := drawn);
    }

    /** Lines one to four of the tick: integrate the velocity, then clamp each coordinate. */
    method MoveShipStep()
      modifies this`ship
      ensures ship == MoveShip(old(ship), vx, vy)
    {
      ship := ship.(x := ship.x + vx);
      ship := ship.(y := ship.y + vy);
      if ship.x < 0 {
        ship := ship.(x := 0);
      }
      if ship.x > ScreenWidth - ShipWidth {
        ship := ship.(x := ScreenWidth - ShipWidth);
      }
      if ship.y < 0 {
        ship := ship.(y := 0);
      }
      if ship.y > ScreenHeight - ShipHeight {
        ship := ship.(y := ScreenHeight - ShipHeight);
      }
    }

    /** The bullet loop of the tick. */
    method MoveBulletsStep()
      requires Valid()
      modifies bullets
      ensures bullets[..] == MoveBullets(old(bullets[..]))
    {
      for i := 0 to MaxBullets
        invariant forall m :: 0 <= m < i ==> bullets[m] == AdvanceBullet(old(bullets[m]))
        invariant forall m :: i <= m < MaxBullets ==> bullets[m] == old(bullets[m])
      {
        if bullets[i].y >= 0 {
          bullets[i] := bullets[i].(y := bullets[i].y - BulletSpeed);
        }
      }
    }

    /** The debris loop of the tick, against the ship and bullets as they stand. */
    method DebrisStep()
      requires Valid()
      modifies this`score, this`gameOver, this`drawn, debris
      ensures Pass(debris[..], score, gameOver, drawn) ==
        DebrisPass(ship, bullets[..], old(Pass(debris[..], score, gameOver, drawn)), debris.Length, tape)
    {
      ghost var start := Pass(debris[..], score, gameOver, drawn);
      for i := 0 to debris.Length
        invariant Pass(debris[..], score, gameOver, drawn) == DebrisPass(ship, bullets[..], start, i, tape)
      {
        DebrisTurnAt(i);
      }
    }

    /** One pass of the debris loop of the tick, for slot i. */
    method DebrisTurnAt(i: nat)
      requires Valid() && i < MaxDebris
      modifies this`score, this`gameOver, this`drawn, debris
      ensures Pass(debris[..], score, gameOver, drawn) ==
        DebrisTurn(ship, bullets[..], old(Pass(debris[..], score, gameOver, drawn)), i, tape)
    {
      if debris[i].y <= ScreenHeight {
        debris[i] := debris[i].(y := debris[i].y + DebrisSpeed);
        ScanBulletsAt(i);
        if Intersects(ship, debris[i]) {
          gameOver := true;
        }
      } else {
        RespawnDebris(i);
      }
    }

    /** The inner loop: every active bullet that overlaps slot i respawns it and scores. */
    method ScanBulletsAt(i: nat)
      requires Valid() && i < MaxDebris
      modifies this`score, this`drawn, debris
      ensures var s := ScanBullets(bullets[..], MaxBullets, old(debris[i]), tape, old(drawn));
        debris[..] == old(debris[..])[i := s.box] && drawn == s.drawn && score == old(score) + s.hits
    {
      for j := 0 to MaxBullets
        invariant var s := ScanBullets(bullets[..], j, old(debris[i]), tape, old(drawn));
          debris[..] == old(debris[..])[i := s.box] && drawn == s.drawn && score == old(score) + s.hits
      {
        if bullets[j].y >= 0 && Intersects(bullets[j], debris[i]) {
          RespawnDebris(i);
          score := score + 1;
        }
      }
    }
  }
}
