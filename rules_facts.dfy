/** Properties of the simulation rules: what one tick does to each debris slot, to the score
    and to the game-over flag, the state invariant, and what holds over many frames. */
module RulesFacts {
  import opened Geometry
  import opened Rules

  // ---------------------------------------------------------------- input and movement

  /** handleInput sets each velocity component from its own pair of keys and, on a fresh space
      key-down while running, writes exactly the slot under the cursor and advances the cursor
      cyclically; any other event leaves every bullet and the cursor alone. */
  lemma InputEffect(w: World, keys: Keys, ev: Event)
    requires |w.bullets| == MaxBullets && 0 <= w.bulletIndex < MaxBullets
    ensures var r := Input(w, keys, ev);
      r.vx == AxisVelocity(keys.left || keys.keyA, keys.right || keys.keyD) &&
      r.vy == AxisVelocity(keys.up || keys.keyW, keys.down || keys.keyS) &&
      (Fires(w, ev) ==>
        r.bullets[w.bulletIndex] == Fired(w.bullets[w.bulletIndex], w.ship) &&
        r.bulletIndex == (w.bulletIndex + 1) % MaxBullets &&
        forall j :: 0 <= j < MaxBullets && j != w.bulletIndex ==> r.bullets[j] == w.bullets[j]) &&
      (!Fires(w, ev) ==> r.bullets == w.bullets && r.bulletIndex == w.bulletIndex)
  {
  }

  /** Clamping picks the point of [0, hi] nearest to the unclamped value. */
  lemma ClampIsNearest(v: int, hi: int, z: int)
    requires 0 <= hi && 0 <= z <= hi
    ensures Dist(ClampAxis(v, hi), v) <= Dist(z, v)
  {
  }

  // ---------------------------------------------------------------- the bullet scan

  /** The scan of one debris box against bullets 0 .. n-1 scores at most once per bullet and
      uses three draws per score; it scores nothing exactly when no active bullet overlaps the
      box it started from, and then the box is untouched; otherwise the box is a fresh one. */
  lemma {:induction false} ScanFacts(bs: seq<Rect>, n: nat, d: Rect, tape: Tape, k: nat)
    requires n <= |bs|
    ensures var s := ScanBullets(bs, n, d, tape, k);
      s.hits <= n && s.drawn == k + 3 * s.hits &&
      (s.hits == 0 <==> !AnyHit(bs, n, d)) &&
      (s.hits == 0 ==> s.box == d) &&
      (s.hits > 0 ==> FreshDebris(s.box))
    decreases n
  {
    if n > 0 {
      ScanFacts(bs, n - 1, d, tape, k);
    }
  }

  /** One piece can score more than once in a single scan: each later bullet is tested against
      the box the previous hit respawned, and here the respawned box lies under the second
      bullet. */
  lemma ScanScoresTwice()
    ensures var bullet := Rect(0, 0, BulletWidth, BulletHeight);
      ScanBullets([bullet, bullet], 2, Rect(0, 0, 30, 30), k => 0, 0).hits == 2
  {
    var bullet := Rect(0, 0, BulletWidth, BulletHeight);
    var tape: Tape := k => 0;
    var first := ScanBullets([bullet, bullet], 1, Rect(0, 0, 30, 30), tape, 0);
    assert Respawn(tape, 0) == Rect(0, 0, 20, 20);
    assert first == Scan(Rect(0, 0, 20, 20), 3, 1);
  }

  /** The recursive hit test means what it says: some active bullet among 0 .. n-1 overlaps
      the box. */
  lemma {:induction false} AnyHitMeans(bs: seq<Rect>, n: nat, d: Rect)
    requires n <= |bs|
    ensures AnyHit(bs, n, d) <==> exists j :: 0 <= j < n && Hits(bs[j], d)
    decreases n
  {
    if n > 0 {
      AnyHitMeans(bs, n - 1, d);
    }
  }

  // ---------------------------------------------------------------- the debris loop

  /** One turn of the debris loop leaves every other slot alone. */
  lemma TurnUntouched(ship: Rect, bs: seq<Rect>, p: Pass, i: nat, tape: Tape, m: nat)
    requires i < |p.debris| && m < |p.debris| && m != i
    ensures DebrisTurn(ship, bs, p, i, tape).debris[m] == p.debris[m]
  {
  }

  /** One turn settles its own slot. */
  lemma TurnSettles(ship: Rect, bs: seq<Rect>, p: Pass, i: nat, tape: Tape)
    requires i < |p.debris|
    ensures Settles(p.debris[i], DebrisTurn(ship, bs, p, i, tape).debris[i], bs)
  {
    if p.debris[i].y <= ScreenHeight {
      ScanFacts(bs, |bs|, Fall(p.debris[i]), tape, p.drawn);
    }
  }

  /** Debris that scores nothing this turn: it was below the screen, or no active bullet
      overlaps it once fallen. */
  predicate Missed(d: Rect, bs: seq<Rect>) {
    d.y > ScreenHeight || !AnyHit(bs, |bs|, Fall(d))
  }

  /** Every slot among 0 .. n-1 is missed. */
  predicate AllMissed(ds: seq<Rect>, bs: seq<Rect>, n: nat)
    requires n <= |ds|
    decreases n
  {
    n == 0 || (AllMissed(ds, bs, n - 1) && Missed(ds[n - 1], bs))
  }

  /** One turn never lowers the score and adds at most one point per bullet. */
  lemma TurnScore(ship: Rect, bs: seq<Rect>, p: Pass, i: nat, tape: Tape)
    requires i < |p.debris|
    ensures p.score <= DebrisTurn(ship, bs, p, i, tape).score <= p.score + |bs|
  {
    if p.debris[i].y <= ScreenHeight {
      ScanFacts(bs, |bs|, Fall(p.debris[i]), tape, p.drawn);
    }
  }

  /** One turn adds no point exactly when the slot is missed. */
  lemma TurnScoreIff(ship: Rect, bs: seq<Rect>, p: Pass, i: nat, tape: Tape)
    requires i < |p.debris|
    ensures DebrisTurn(ship, bs, p, i, tape).score == p.score <==> Missed(p.debris[i], bs)
  {
    if p.debris[i].y <= ScreenHeight {
      ScanFacts(bs, |bs|, Fall(p.debris[i]), tape, p.drawn);
    }
  }

  /** One turn ends the game exactly when it was over, or the slot was on screen and ends the
      turn overlapping the ship. */
  lemma TurnGameOver(ship: Rect, bs: seq<Rect>, p: Pass, i: nat, tape: Tape)
    requires i < |p.debris|
    ensures var r := DebrisTurn(ship, bs, p, i, tape);
      r.gameOver <==> p.gameOver || (p.debris[i].y <= ScreenHeight && Intersects(ship, r.debris[i]))
  {
  }

  /** The recursive form of "every slot among 0 .. n-1 is missed" means what it says. */
  lemma {:induction false} AllMissedMeans(ds: seq<Rect>, bs: seq<Rect>, n: nat)
    requires n <= |ds|
    ensures AllMissed(ds, bs, n) <==> forall m :: 0 <= m < n ==> Missed(ds[m], bs)
    decreases n
  {
    if n > 0 {
      AllMissedMeans(ds, bs, n - 1);
    }
  }

  /** Slots among 0 .. n-1 that start their turn below the screen. */
  function BelowCount(ds: seq<Rect>, n: nat): (c: nat)
    requires n <= |ds|
    ensures c <= n
  {
    if n == 0 then 0
    else BelowCount(ds, n - 1) + (if ds[n - 1].y > ScreenHeight then 1 else 0)
  }

  /** Every respawn of a turn draws three values: one respawn per point scored, or one for a
      slot below the screen. */
  lemma TurnDraws(ship: Rect, bs: seq<Rect>, p: Pass, i: nat, tape: Tape)
    requires i < |p.debris|
    ensures var r := DebrisTurn(ship, bs, p, i, tape);
      r.drawn == p.drawn + 3 * (r.score - p.score) + (if p.debris[i].y > ScreenHeight then 3 else 0)
  {
    if p.debris[i].y <= ScreenHeight {
      ScanFacts(bs, |bs|, Fall(p.debris[i]), tape, p.drawn);
    }
  }

  /** The loop over slots 0 .. n-1 leaves slot m, for m at n or above, alone. */
  lemma {:induction false} PassUntouched(ship: Rect, bs: seq<Rect>, p: Pass, n: nat, tape: Tape, m: nat)
    requires n <= m < |p.debris|
    ensures DebrisPass(ship, bs, p, n, tape).debris[m] == p.debris[m]
    decreases n
  {
    if n > 0 {
      PassUntouched(ship, bs, p, n - 1, tape, m);
      TurnUntouched(ship, bs, DebrisPass(ship, bs, p, n - 1, tape), n - 1, tape, m);
    }
  }

  /** The loop over slots 0 .. n-1 leaves slots n and above alone. */
  lemma PassFrame(ship: Rect, bs: seq<Rect>, p: Pass, n: nat, tape: Tape)
    requires n <= |p.debris|
    ensures var r := DebrisPass(ship, bs, p, n, tape);
      forall m :: n <= m < |p.debris| ==> r.debris[m] == p.debris[m]
  {
    forall m | n <= m < |p.debris| ensures DebrisPass(ship, bs, p, n, tape).debris[m] == p.debris[m] {
      PassUntouched(ship, bs, p, n, tape, m);
    }
  }

  /** After the loop over slots 0 .. n-1, slot m, for m below n, has settled from where it
      started. */
  lemma {:induction false} PassSettlesSlot(ship: Rect, bs: seq<Rect>, p: Pass, n: nat, tape: Tape, m: nat)
    requires m < n <= |p.debris|
    ensures Settles(p.debris[m], DebrisPass(ship, bs, p, n, tape).debris[m], bs)
    decreases n
  {
    var q := DebrisPass(ship, bs, p, n - 1, tape);
    if m < n - 1 {
      PassSettlesSlot(ship, bs, p, n - 1, tape, m);
      TurnUntouched(ship, bs, q, n - 1, tape, m);
    } else {
      PassUntouched(ship, bs, p, n - 1, tape, m);
      TurnSettles(ship, bs, q, n - 1, tape);
    }
  }

  /** After the loop over slots 0 .. n-1 each of those slots has settled from where it started. */
  lemma PassSettles(ship: Rect, bs: seq<Rect>, p: Pass, n: nat, tape: Tape)
    requires n <= |p.debris|
    ensures var r := DebrisPass(ship, bs, p, n, tape);
      forall m :: 0 <= m < n ==> Settles(p.debris[m], r.debris[m], bs)
  {
    forall m | 0 <= m < n ensures Settles(p.debris[m], DebrisPass(ship, bs, p, n, tape).debris[m], bs) {
      PassSettlesSlot(ship, bs, p, n, tape, m);
    }
  }

  /** The loop over slots 0 .. n-1 never lowers the score. */
  lemma {:induction false} PassScoreGrows(ship: Rect, bs: seq<Rect>, p: Pass, n: nat, tape: Tape)
    requires n <= |p.debris|
    ensures p.score <= DebrisPass(ship, bs, p, n, tape).score
    decreases n
  {
    if n > 0 {
      PassScoreGrows(ship, bs, p, n - 1, tape);
      TurnScore(ship, bs, DebrisPass(ship, bs, p, n - 1, tape), n - 1, tape);
    }
  }

  /** The loop over slots 0 .. n-1 adds at most one point per slot and bullet. */
  lemma {:induction false} PassScoreBounds(ship: Rect, bs: seq<Rect>, p: Pass, n: nat, tape: Tape)
    requires n <= |p.debris|
    ensures var r := DebrisPass(ship, bs, p, n, tape);
      p.score <= r.score <= p.score + n * |bs|
    decreases n
  {
    if n > 0 {
      var q := DebrisPass(ship, bs, p, n - 1, tape);
      var r := DebrisTurn(ship, bs, q, n - 1, tape);
      PassScoreBounds(ship, bs, p, n - 1, tape);
      TurnScore(ship, bs, q, n - 1, tape);
      BoundStep(p.score, q.score, r.score, |bs|, n);
    }
  }

  /** Adding at most k to a total that had grown by at most (n - 1) k. */
  lemma BoundStep(ps: int, qs: int, rs: int, k: nat, n: nat)
    requires n > 0
    requires ps <= qs <= ps + (n - 1) * k && qs <= rs <= qs + k
    ensures ps <= rs <= ps + n * k
  {
  }

  /** When the loop over slots 0 .. n-1 adds no point, each of those slots was missed. */
  lemma {:induction false} PassNoScoreMissed(ship: Rect, bs: seq<Rect>, p: Pass, n: nat, tape: Tape)
    requires n <= |p.debris|
    requires DebrisPass(ship, bs, p, n, tape).score == p.score
    ensures AllMissed(p.debris, bs, n)
    decreases n
  {
    if n > 0 {
      var q := DebrisPass(ship, bs, p, n - 1, tape);
      PassScoreGrows(ship, bs, p, n - 1, tape);
      TurnScore(ship, bs, q, n - 1, tape);
      PassNoScoreMissed(ship, bs, p, n - 1, tape);
      TurnScoreIff(ship, bs, q, n - 1, tape);
      PassUntouched(ship, bs, p, n - 1, tape, n - 1);
    }
  }

  /** When each of the slots 0 .. n-1 is missed, the loop over them adds no point. */
  lemma {:induction false} PassMissedNoScore(ship: Rect, bs: seq<Rect>, p: Pass, n: nat, tape: Tape)
    requires n <= |p.debris|
    requires AllMissed(p.debris, bs, n)
    ensures DebrisPass(ship, bs, p, n, tape).score == p.score
    decreases n
  {
    if n > 0 {
      var q := DebrisPass(ship, bs, p, n - 1, tape);
      PassMissedNoScore(ship, bs, p, n - 1, tape);
      PassUntouched(ship, bs, p, n - 1, tape, n - 1);
      TurnScoreIff(ship, bs, q, n - 1, tape);
    }
  }

  /** The loop over slots 0 .. n-1 adds no point exactly when every one of those slots is
      missed. */
  lemma PassScoreIff(ship: Rect, bs: seq<Rect>, p: Pass, n: nat, tape: Tape)
    requires n <= |p.debris|
    ensures DebrisPass(ship, bs, p, n, tape).score == p.score <==> AllMissed(p.debris, bs, n)
  {
    if DebrisPass(ship, bs, p, n, tape).score == p.score {
      PassNoScoreMissed(ship, bs, p, n, tape);
    }
    if AllMissed(p.debris, bs, n) {
      PassMissedNoScore(ship, bs, p, n, tape);
    }
  }

  /** The loop over slots 0 .. n-1 sets the game-over flag exactly when it was set or one of
      those slots that was on screen ends the loop overlapping the ship. */
  lemma {:induction false} PassGameOver(ship: Rect, bs: seq<Rect>, p: Pass, n: nat, tape: Tape)
    requires n <= |p.debris|
    ensures var r := DebrisPass(ship, bs, p, n, tape);
      r.gameOver <==>
        p.gameOver ||
        exists m :: 0 <= m < n && p.debris[m].y <= ScreenHeight && Intersects(ship, r.debris[m])
    decreases n
  {
    if n > 0 {
      var q := DebrisPass(ship, bs, p, n - 1, tape);
      var r := DebrisTurn(ship, bs, q, n - 1, tape);
      PassGameOver(ship, bs, p, n - 1, tape);
      PassUntouched(ship, bs, p, n - 1, tape, n - 1);
      TurnGameOver(ship, bs, q, n - 1, tape);
      if q.gameOver && !p.gameOver {
        var m :| 0 <= m < n - 1 && p.debris[m].y <= ScreenHeight && Intersects(ship, q.debris[m]);
        TurnUntouched(ship, bs, q, n - 1, tape, m);
      }
      if exists m :: 0 <= m < n - 1 && p.debris[m].y <= ScreenHeight && Intersects(ship, r.debris[m]) {
        var m :| 0 <= m < n - 1 && p.debris[m].y <= ScreenHeight && Intersects(ship, r.debris[m]);
        TurnUntouched(ship, bs, q, n - 1, tape, m);
      }
    }
  }

  /** The loop over slots 0 .. n-1 draws three values per point scored and three per slot
      that was below the screen: each point is one bullet-debris overlap found and answered by
      a respawn. */
  lemma {:induction false} PassDraws(ship: Rect, bs: seq<Rect>, p: Pass, n: nat, tape: Tape)
    requires n <= |p.debris|
    ensures DebrisPass(ship, bs, p, n, tape).drawn
      == p.drawn + 3 * (DebrisPass(ship, bs, p, n, tape).score - p.score) + 3 * BelowCount(p.debris, n)
    decreases n
  {
    if n > 0 {
      PassDraws(ship, bs, p, n - 1, tape);
      PassStepDraws(ship, bs, p, n, tape);
      DrawsStep(p.drawn, DebrisPass(ship, bs, p, n - 1, tape).drawn, DebrisPass(ship, bs, p, n, tape).drawn,
                p.score, DebrisPass(ship, bs, p, n - 1, tape).score, DebrisPass(ship, bs, p, n, tape).score,
                BelowCount(p.debris, n - 1), BelowCount(p.debris, n));
    }
  }

  /** The turn of slot n - 1 draws three values per point it scores, plus three if the slot
      started the loop below the screen. */
  lemma PassStepDraws(ship: Rect, bs: seq<Rect>, p: Pass, n: nat, tape: Tape)
    requires 0 < n <= |p.debris|
    ensures DebrisPass(ship, bs, p, n, tape).drawn
      == DebrisPass(ship, bs, p, n - 1, tape).drawn
         + 3 * (DebrisPass(ship, bs, p, n, tape).score - DebrisPass(ship, bs, p, n - 1, tape).score)
         + 3 * (BelowCount(p.debris, n) - BelowCount(p.debris, n - 1))
  {
    PassUntouched(ship, bs, p, n - 1, tape, n - 1);
    TurnDraws(ship, bs, DebrisPass(ship, bs, p, n - 1, tape), n - 1, tape);
  }

  /** The bookkeeping of PassDraws on plain numbers: one more turn keeps the balance. */
  lemma DrawsStep(pd: int, qd: int, rd: int, ps: int, qs: int, rs: int, before: int, after: int)
    requires qd == pd + 3 * (qs - ps) + 3 * before
    requires rd == qd + 3 * (rs - qs) + 3 * (after - before)
    ensures rd == pd + 3 * (rs - ps) + 3 * after
  {
  }

  // ---------------------------------------------------------------- one tick

  /** What one running tick does to debris slot i. */
  lemma TickDebrisSlot(w: World, tape: Tape, i: nat)
    requires !w.gameOver && i < |w.debris|
    ensures Settles(w.debris[i], Tick(w, tape).debris[i], MoveBullets(w.bullets))
  {
    PassSettles(MoveShip(w.ship, w.vx, w.vy), MoveBullets(w.bullets), PassOf(w), |w.debris|, tape);
  }

  /** A tick never lowers the score and adds at most one point per debris slot and bullet. */
  lemma TickScoreBounds(w: World, tape: Tape)
    ensures w.score <= Tick(w, tape).score <= w.score + |w.debris| * |w.bullets|
  {
    if !w.gameOver {
      PassScoreBounds(MoveShip(w.ship, w.vx, w.vy), MoveBullets(w.bullets), PassOf(w), |w.debris|, tape);
    }
  }

  /** A running tick leaves the score unchanged exactly when no active bullet, after moving,
      overlaps any on-screen debris box after it falls. */
  lemma TickScoreUnchangedIff(w: World, tape: Tape)
    requires !w.gameOver
    ensures Tick(w, tape).score == w.score <==>
      forall i, j :: 0 <= i < |w.debris| && 0 <= j < |w.bullets| && w.debris[i].y <= ScreenHeight ==>
        !Hits(AdvanceBullet(w.bullets[j]), Fall(w.debris[i]))
  {
    var bs := MoveBullets(w.bullets);
    PassScoreIff(MoveShip(w.ship, w.vx, w.vy), bs, PassOf(w), |w.debris|, tape);
    AllMissedMeans(w.debris, bs, |w.debris|);
    assert forall j :: 0 <= j < |w.bullets| ==> bs[j] == AdvanceBullet(w.bullets[j]);
    forall i | 0 <= i < |w.debris|
      ensures Missed(w.debris[i], bs) <==>
        (w.debris[i].y <= ScreenHeight ==>
          forall j :: 0 <= j < |w.bullets| ==> !Hits(AdvanceBullet(w.bullets[j]), Fall(w.debris[i])))
    {
      AnyHitMeans(bs, |bs|, Fall(w.debris[i]));
    }
  }

  /** A tick ends the game exactly when it was already over, or some debris slot that was on
      screen ends the tick overlapping the ship. */
  lemma TickGameOverIff(w: World, tape: Tape)
    ensures var r := Tick(w, tape);
      r.gameOver <==>
        w.gameOver ||
        exists i :: 0 <= i < |w.debris| && w.debris[i].y <= ScreenHeight && Intersects(r.ship, r.debris[i])
  {
    if !w.gameOver {
      PassGameOver(MoveShip(w.ship, w.vx, w.vy), MoveBullets(w.bullets), PassOf(w), |w.debris|, tape);
    }
  }

  /** In a running tick each active bullet moves up by exactly the bullet speed and keeps its
      x and size, hit or not; inactive bullets stay where they are. */
  lemma TickMovesBullets(w: World, tape: Tape, j: nat)
    requires !w.gameOver && j < |w.bullets|
    ensures var b := w.bullets[j]; var b' := Tick(w, tape).bullets[j];
      b'.x == b.x && b'.w == b.w && b'.h == b.h &&
      b'.y == (if b.y >= 0 then b.y - BulletSpeed else b.y)
  {
  }

  /** A running tick makes three rand() calls per point scored and three per debris slot that
      started the tick below the screen, and no others. */
  lemma TickDraws(w: World, tape: Tape)
    requires !w.gameOver
    ensures var r := Tick(w, tape);
      r.drawn == w.drawn + 3 * (r.score - w.score) + 3 * BelowCount(w.debris, |w.debris|)
  {
    PassDraws(MoveShip(w.ship, w.vx, w.vy), MoveBullets(w.bullets), PassOf(w), |w.debris|, tape);
  }

  // ---------------------------------------------------------------- the invariant

  lemma InitialInv(tape: Tape)
    ensures Inv(Initial(tape))
  {
    var w := Initial(tape);
    forall j | 0 <= j < |w.bullets| ensures BulletInPlay(w.bullets[j]) {
      assert w.bullets[j] == ParkedBullet();
    }
  }

  lemma InputPreservesInv(w: World, keys: Keys, ev: Event)
    requires Inv(w)
    ensures Inv(Input(w, keys, ev))
  {
  }

  /** A slot that settles from an in-play rectangle is in play again. */
  lemma SettledInPlay(d: Rect, r: Rect, bs: seq<Rect>)
    requires DebrisInPlay(d) && Settles(d, r, bs)
    ensures DebrisInPlay(r)
  {
  }

  lemma TickKeepsDebrisInPlay(w: World, tape: Tape)
    requires !w.gameOver
    requires forall i :: 0 <= i < |w.debris| ==> DebrisInPlay(w.debris[i])
    ensures forall i :: 0 <= i < |w.debris| ==> DebrisInPlay(Tick(w, tape).debris[i])
  {
    var r := Tick(w, tape);
    forall i | 0 <= i < |w.debris| ensures DebrisInPlay(r.debris[i]) {
      TickDebrisSlot(w, tape, i);
      SettledInPlay(w.debris[i], r.debris[i], MoveBullets(w.bullets));
    }
  }

  lemma TickKeepsBulletsInPlay(w: World, tape: Tape)
    requires forall j :: 0 <= j < |w.bullets| ==> BulletInPlay(w.bullets[j])
    ensures forall j :: 0 <= j < |w.bullets| ==> BulletInPlay(Tick(w, tape).bullets[j])
  {
    var r := Tick(w, tape);
    forall j | 0 <= j < |w.bullets| ensures BulletInPlay(r.bullets[j]) {
      assert BulletInPlay(w.bullets[j]);
    }
  }

  lemma TickPreservesInv(w: World, tape: Tape)
    requires Inv(w)
    ensures Inv(Tick(w, tape))
  {
    if !w.gameOver {
      TickKeepsDebrisInPlay(w, tape);
      TickKeepsBulletsInPlay(w, tape);
      TickScoreBounds(w, tape);
    }
  }

  lemma {:induction false} HandleAllPreservesInv(w: World, polls: seq<Poll>)
    requires Inv(w)
    ensures Inv(HandleAll(w, polls))
    decreases |polls|
  {
    if polls != [] {
      InputPreservesInv(w, polls[0].keys, polls[0].event);
      HandleAllPreservesInv(Input(w, polls[0].keys, polls[0].event), polls[1..]);
    }
  }

  /** From the initial state, or any state meeting the invariant, every run of the game loop
      keeps it: the ship stays on the playfield, the cursor in range, and every slot in shape. */
  lemma {:induction false} RunPreservesInv(w: World, frames: seq<seq<Poll>>, tape: Tape)
    requires Inv(w)
    ensures Inv(Run(w, frames, tape))
    decreases |frames|
  {
    if frames != [] {
      HandleAllPreservesInv(w, frames[0]);
      TickPreservesInv(HandleAll(w, frames[0]), tape);
      RunPreservesInv(Frame(w, frames[0], tape), frames[1..], tape);
    }
  }

  // ---------------------------------------------------------------- many frames

  /** Handling events touches only the velocity, the bullets and the cursor. */
  lemma {:induction false} HandleAllKeeps(w: World, polls: seq<Poll>)
    requires |w.bullets| == MaxBullets && 0 <= w.bulletIndex < MaxBullets
    ensures var r := HandleAll(w, polls);
      r.ship == w.ship && r.debris == w.debris && r.score == w.score &&
      r.gameOver == w.gameOver && r.drawn == w.drawn
    decreases |polls|
  {
    if polls != [] {
      HandleAllKeeps(Input(w, polls[0].keys, polls[0].event), polls[1..]);
    }
  }

  /** Events handled after the game is over change nothing but the velocity. */
  lemma {:induction false} HandleAllAfterGameOver(w: World, polls: seq<Poll>)
    requires |w.bullets| == MaxBullets && 0 <= w.bulletIndex < MaxBullets && w.gameOver
    ensures var r := HandleAll(w, polls);
      r.bullets == w.bullets && r.bulletIndex == w.bulletIndex
    decreases |polls|
  {
    if polls != [] {
      HandleAllAfterGameOver(Input(w, polls[0].keys, polls[0].event), polls[1..]);
    }
  }

  /** Game over is permanent: whatever happens in later frames, the flag stays set and the ship,
      every bullet, every debris rectangle, the cursor and the score stay as they were. */
  lemma {:induction false} GameOverIsFinal(w: World, frames: seq<seq<Poll>>, tape: Tape)
    requires |w.bullets| == MaxBullets && 0 <= w.bulletIndex < MaxBullets && w.gameOver
    ensures var r := Run(w, frames, tape);
      r.gameOver && r.ship == w.ship && r.bullets == w.bullets && r.debris == w.debris &&
      r.bulletIndex == w.bulletIndex && r.score == w.score && r.drawn == w.drawn
    decreases |frames|
  {
    if frames != [] {
      HandleAllKeeps(w, frames[0]);
      HandleAllAfterGameOver(w, frames[0]);
      GameOverIsFinal(Frame(w, frames[0], tape), frames[1..], tape);
    }
  }

  /** The score never goes down over any number of frames. */
  lemma {:induction false} ScoreNeverDecreases(w: World, frames: seq<seq<Poll>>, tape: Tape)
    requires |w.bullets| == MaxBullets && 0 <= w.bulletIndex < MaxBullets
    ensures Run(w, frames, tape).score >= w.score
    decreases |frames|
  {
    if frames != [] {
      HandleAllKeeps(w, frames[0]);
      TickScoreBounds(HandleAll(w, frames[0]), tape);
      ScoreNeverDecreases(Frame(w, frames[0], tape), frames[1..], tape);
    }
  }

  /** Firing from the starting position, then one tick with no key held: the bullet appears at
      (340, 650) and moves to (340, 645). */
  lemma FirstShot(tape: Tape)
    ensures var w := Input(Initial(tape), Keys(false, false, false, false, false, false, false, false),
                           KeyDown(Space, false));
      w.bullets[0] == Rect(340, 650, 20, 20) && w.bulletIndex == 1 &&
      Tick(w, tape).bullets[0] == Rect(340, 645, 20, 20)
  {
    var w0 := Initial(tape);
    assert w0.bullets[0] == ParkedBullet();
  }
}
