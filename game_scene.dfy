/**
 * The combat state of GameScene (game.js) as one object: the fields `create`
 * sets up and the scene's handlers that change them in place.  Phaser decides
 * when a timer fires, when a frame runs and when two bodies overlap; here the
 * caller makes those decisions by calling the matching method.
 */
module Scene {
  import opened Combat

  /** The invisible physics sprite the player's bullets are tested against. */
  class Hitbox {
    var x: int
    var y: int

    constructor (x: int, y: int)
      ensures this.x == x && this.y == y
    {
      this.x := x;
      this.y := y;
    }
  }

  class GameScene {
    var playerHealth: int
    var alienHealth: int
    var playerX: int
    var playerY: int
    var alienX: int
    var alienY: int
    var alienDirection: int
    /** The current hitbox; null once it is destroyed by the fatal hit. */
    var alienHitbox: Hitbox?
    /** The `delay` of the alien shoot timer, in milliseconds. */
    var shootDelay: real
    var playerBullets: seq<Bullet>
    var alienBullets: seq<Bullet>
    /** The identity the next bullet sprite will get. */
    var nextBulletId: nat
    var outcome: Outcome

    /** The invariant of the combat state from `create` on. */
    ghost predicate Valid()
      reads this
      ensures Valid() ==> PatrolLeft - 2 <= alienX <= PatrolRight + 2
      ensures Valid() ==> (alienHitbox == null <==> alienHealth == 0)
      ensures Valid() && outcome == Undecided ==> alienHitbox != null
    {
      && PatrolInv(alienX, alienDirection)
      && 0 <= alienHealth <= AlienMaxHealth && alienHealth % AlienDamage == 0
      && (alienHitbox != null <==> alienHealth > 0)
      && shootDelay == ShootDelay(if alienHealth > 0 then alienHealth else AlienDamage)
      && playerHealth <= PlayerMaxHealth && playerHealth % PlayerDamage == 0
      && DistinctIds(playerBullets) && DistinctIds(alienBullets)
      && (forall b :: b in playerBullets ==> b.id < nextBulletId)
      && (forall b :: b in alienBullets ==> b.id < nextBulletId)
      && (outcome == Undecided <==> alienHealth > 0 && playerHealth > 0)
      && (outcome == Win ==> alienHealth == 0)
      && (outcome == Lose ==> playerHealth <= 0)
    }

    /** The fields `create` sets: full health, the player below the screen,
        the alien and its hitbox above it, the alien moving right, empty
        bullet groups and a 1000 ms alien shoot timer. */
    constructor ()
      ensures Valid()
      ensures playerHealth == PlayerMaxHealth && alienHealth == AlienMaxHealth
      ensures playerX == 300 && playerY == 900
      ensures alienX == 300 && alienY == -100 && alienDirection == 1
      ensures alienHitbox != null && fresh(alienHitbox)
      ensures alienHitbox.x == 300 && alienHitbox.y == -100
      ensures shootDelay == 1000.0
      ensures playerBullets == [] && alienBullets == []
      ensures outcome == Undecided
    {
      playerHealth := PlayerMaxHealth;
      alienHealth := AlienMaxHealth;
      playerX, playerY := 300, 900;
      alienX, alienY := 300, -100;
      alienDirection := 1;
      alienHitbox := new Hitbox(300, -100);
      shootDelay := 1000.0;
      playerBullets, alienBullets := [], [];
      nextBulletId := 0;
      outcome := Undecided;
    }

    /** One frame: the alien patrols one step, the hitbox (if any) follows it
        and each bullet group runs its cull loop as game.js writes it, which
        may leave a bullet past the edge for a later frame. */
    method Update()
      requires Valid()
      modifies this, alienHitbox
      ensures Valid()
      ensures (alienX, alienDirection) == PatrolStep(old(alienX), old(alienDirection))
      ensures alienHitbox == old(alienHitbox)
      ensures alienHitbox != null ==> alienHitbox.x == alienX && alienHitbox.y == alienY
      ensures playerBullets == ForEachDestroyed(old(playerBullets), PlayerSide)
      ensures alienBullets == ForEachDestroyed(old(alienBullets), AlienSide)
      ensures alienY == old(alienY) && playerX == old(playerX) && playerY == old(playerY)
      ensures playerHealth == old(playerHealth) && alienHealth == old(alienHealth)
      ensures shootDelay == old(shootDelay) && nextBulletId == old(nextBulletId)
      ensures outcome == old(outcome)
    {
      MoveAlien();
      CullBullets();
    }

    /** The patrol half of a frame: move by the direction, bring the hitbox
        along, then turn round at or past a bound. */
    method MoveAlien()
      requires Valid()
      modifies this, alienHitbox
      ensures Valid()
      ensures (alienX, alienDirection) == PatrolStep(old(alienX), old(alienDirection))
      ensures alienHitbox == old(alienHitbox)
      ensures alienHitbox != null ==> alienHitbox.x == alienX && alienHitbox.y == alienY
      ensures playerBullets == old(playerBullets) && alienBullets == old(alienBullets)
      ensures alienY == old(alienY) && playerX == old(playerX) && playerY == old(playerY)
      ensures playerHealth == old(playerHealth) && alienHealth == old(alienHealth)
      ensures shootDelay == old(shootDelay) && nextBulletId == old(nextBulletId)
      ensures outcome == old(outcome)
    {
      PatrolStepKeepsInv(alienX, alienDirection);
      alienX := alienX + alienDirection * PatrolSpeed;
      if alienHitbox != null {
        alienHitbox.x := alienX;
        alienHitbox.y := alienY;
      }
      if alienX >= PatrolRight || alienX <= PatrolLeft {
        alienDirection := -alienDirection;
      }
    }

    /** The cleanup half of a frame: both cull loops as written. */
    method CullBullets()
      requires Valid()
      modifies this
      ensures Valid()
      ensures playerBullets == ForEachDestroyed(old(playerBullets), PlayerSide)
      ensures alienBullets == ForEachDestroyed(old(alienBullets), AlienSide)
      ensures alienX == old(alienX) && alienDirection == old(alienDirection)
      ensures alienHitbox == old(alienHitbox)
      ensures alienY == old(alienY) && playerX == old(playerX) && playerY == old(playerY)
      ensures playerHealth == old(playerHealth) && alienHealth == old(alienHealth)
      ensures shootDelay == old(shootDelay) && nextBulletId == old(nextBulletId)
      ensures outcome == old(outcome)
    {
      ForEachDestroyedKeepsDistinct(playerBullets, PlayerSide);
      ForEachDestroyedKeepsDistinct(alienBullets, AlienSide);
      playerBullets := ForEachDestroyLoop(playerBullets, PlayerSide);
      alienBullets := ForEachDestroyLoop(alienBullets, AlienSide);
    }

    /** The player's auto-fire: one bullet just above the ship, moving up. */
    method ShootPlayer()
      requires Valid()
      modifies this
      ensures Valid()
      ensures playerBullets == old(playerBullets)
                + [Bullet(old(nextBulletId), playerX, playerY - MuzzleOffset, PlayerBulletSpeed)]
      ensures nextBulletId == old(nextBulletId) + 1
      ensures alienBullets == old(alienBullets)
      ensures playerX == old(playerX) && playerY == old(playerY)
      ensures alienX == old(alienX) && alienY == old(alienY) && alienDirection == old(alienDirection)
      ensures alienHitbox == old(alienHitbox) && shootDelay == old(shootDelay)
      ensures playerHealth == old(playerHealth) && alienHealth == old(alienHealth)
      ensures outcome == old(outcome)
    {
      var bullet := Bullet(nextBulletId, playerX, playerY - MuzzleOffset, PlayerBulletSpeed);
      playerBullets := playerBullets + [bullet];
      nextBulletId := nextBulletId + 1;
    }

    /** The alien shoot timer's callback: one bullet just below the alien,
        moving down. */
    method ShootAlien()
      requires Valid()
      modifies this
      ensures Valid()
      ensures alienBullets == old(alienBullets)
                + [Bullet(old(nextBulletId), alienX, alienY + MuzzleOffset, AlienBulletSpeed)]
      ensures nextBulletId == old(nextBulletId) + 1
      ensures playerBullets == old(playerBullets)
      ensures playerX == old(playerX) && playerY == old(playerY)
      ensures alienX == old(alienX) && alienY == old(alienY) && alienDirection == old(alienDirection)
      ensures alienHitbox == old(alienHitbox) && shootDelay == old(shootDelay)
      ensures playerHealth == old(playerHealth) && alienHealth == old(alienHealth)
      ensures outcome == old(outcome)
    {
      var bullet := Bullet(nextBulletId, alienX, alienY + MuzzleOffset, AlienBulletSpeed);
      alienBullets := alienBullets + [bullet];
      nextBulletId := nextBulletId + 1;
    }

    /** The overlap handler of a player bullet and the live hitbox. A missing
        bullet, or one already destroyed, changes nothing. Otherwise the
        bullet and the hitbox are destroyed and the alien loses 10 health;
        the hit that takes it to 0 requests the winning GameOverScene, any
        other speeds up the shoot timer and puts a new hitbox on the alien. */
    method HitAlien(bullet: Option<nat>)
      requires Valid() && alienHitbox != null
      modifies this
      ensures Valid()
      ensures !(bullet.Some? && bullet.value in Ids(old(playerBullets))) ==> unchanged(this)
      ensures bullet.Some? && bullet.value in Ids(old(playerBullets)) ==>
        && playerBullets == Without(old(playerBullets), bullet.value)
        && |playerBullets| == |old(playerBullets)| - 1
        && alienHealth == old(alienHealth) - AlienDamage
        && (alienHealth == 0 ==>
              alienHitbox == null && outcome == Win && shootDelay == old(shootDelay))
        && (alienHealth > 0 ==>
              && alienHitbox != null && fresh(alienHitbox)
              && alienHitbox.x == alienX && alienHitbox.y == alienY
              && shootDelay == ShootDelay(alienHealth)
              && outcome == old(outcome))
        && alienBullets == old(alienBullets) && nextBulletId == old(nextBulletId)
        && playerHealth == old(playerHealth)
        && playerX == old(playerX) && playerY == old(playerY)
        && alienX == old(alienX) && alienY == old(alienY) && alienDirection == old(alienDirection)
    {
      if bullet.None? || bullet.value !in Ids(playerBullets) {
        return;
      }
      DamageAlien(bullet.value);
    }

    /** The part of the alien hit handler past its guard, for the live bullet
        `id`: the bullet destroyed, then the hit on the alien. */
    method DamageAlien(id: nat)
      requires Valid() && alienHitbox != null && id in Ids(playerBullets)
      modifies this
      ensures Valid()
      ensures playerBullets == Without(old(playerBullets), id)
      ensures |playerBullets| == |old(playerBullets)| - 1
      ensures alienHealth == old(alienHealth) - AlienDamage
      ensures alienHealth == 0 ==>
                alienHitbox == null && outcome == Win && shootDelay == old(shootDelay)
      ensures alienHealth > 0 ==>
                && alienHitbox != null && fresh(alienHitbox)
                && alienHitbox.x == alienX && alienHitbox.y == alienY
                && shootDelay == ShootDelay(alienHealth)
                && outcome == old(outcome)
      ensures alienBullets == old(alienBullets) && nextBulletId == old(nextBulletId)
      ensures playerHealth == old(playerHealth)
      ensures playerX == old(playerX) && playerY == old(playerY)
      ensures alienX == old(alienX) && alienY == old(alienY) && alienDirection == old(alienDirection)
    {
      playerBullets := RemoveActive(playerBullets, id, nextBulletId);
      StrikeAlien();
    }

    /** The hit itself, once the bullet is gone: the hitbox destroyed, 10
        health off, then the win request or a faster timer and a new hitbox
        at the alien. */
    method StrikeAlien()
      requires Valid() && alienHitbox != null
      modifies this
      ensures Valid()
      ensures alienHealth == old(alienHealth) - AlienDamage
      ensures alienHealth == 0 ==>
                alienHitbox == null && outcome == Win && shootDelay == old(shootDelay)
      ensures alienHealth > 0 ==>
                && alienHitbox != null && fresh(alienHitbox)
                && alienHitbox.x == alienX && alienHitbox.y == alienY
                && shootDelay == ShootDelay(alienHealth)
                && outcome == old(outcome)
      ensures playerBullets == old(playerBullets)
      ensures alienBullets == old(alienBullets) && nextBulletId == old(nextBulletId)
      ensures playerHealth == old(playerHealth)
      ensures playerX == old(playerX) && playerY == old(playerY)
      ensures alienX == old(alienX) && alienY == old(alienY) && alienDirection == old(alienDirection)
    {
      alienHitbox := null;
      alienHealth := alienHealth - AlienDamage;
      if alienHealth <= 0 {
        outcome := Win;
      } else {
        shootDelay := ShootDelay(alienHealth);
        alienHitbox := new Hitbox(alienX, alienY);
      }
    }

    /** The overlap handler of the player and an alien bullet. There is no
        check that the bullet is still live and no floor on health: every
        call destroys the bullet (if still there) and takes 20 health. */
    method HitPlayer(bullet: nat)
      requires Valid()
      modifies this
      ensures Valid()
      ensures alienBullets == Without(old(alienBullets), bullet)
      ensures bullet in Ids(old(alienBullets)) ==> |alienBullets| == |old(alienBullets)| - 1
      ensures playerHealth == old(playerHealth) - PlayerDamage
      ensures outcome == if playerHealth <= 0 then Lose else old(outcome)
      ensures playerBullets == old(playerBullets) && nextBulletId == old(nextBulletId)
      ensures alienHealth == old(alienHealth) && alienHitbox == old(alienHitbox)
      ensures shootDelay == old(shootDelay)
      ensures playerX == old(playerX) && playerY == old(playerY)
      ensures alienX == old(alienX) && alienY == old(alienY) && alienDirection == old(alienDirection)
    {
      if bullet in Ids(alienBullets) {
        var i :| 0 <= i < |alienBullets| && alienBullets[i].id == bullet;
        WithoutRemovesOne(alienBullets, i);
      }
      WithoutKeepsIdsBelow(alienBullets, bullet, nextBulletId);
      alienBullets := Without(alienBullets, bullet);
      playerHealth := playerHealth - PlayerDamage;
      if playerHealth <= 0 {
        outcome := Lose;
      }
    }

    /** The pointer-move handler: the ship follows the pointer within the
        allowed strip. */
    method PointerMove(px: int)
      requires Valid()
      modifies this
      ensures Valid()
      ensures playerX == ClampPointer(px)
      ensures playerY == old(playerY) && alienX == old(alienX) && alienY == old(alienY)
      ensures alienDirection == old(alienDirection) && alienHitbox == old(alienHitbox)
      ensures playerBullets == old(playerBullets) && alienBullets == old(alienBullets)
      ensures nextBulletId == old(nextBulletId) && shootDelay == old(shootDelay)
      ensures playerHealth == old(playerHealth) && alienHealth == old(alienHealth)
      ensures outcome == old(outcome)
    {
      playerX := ClampPointer(px);
    }

    /** Where the entry tweens have moved the two ships vertically; the easing
        itself is not modelled, only the positions it writes. */
    method Descend(newAlienY: int, newPlayerY: int)
      requires Valid()
      modifies this
      ensures Valid()
      ensures alienY == newAlienY && playerY == newPlayerY
      ensures playerX == old(playerX) && alienX == old(alienX)
      ensures alienDirection == old(alienDirection) && alienHitbox == old(alienHitbox)
      ensures playerBullets == old(playerBullets) && alienBullets == old(alienBullets)
      ensures nextBulletId == old(nextBulletId) && shootDelay == old(shootDelay)
      ensures playerHealth == old(playerHealth) && alienHealth == old(alienHealth)
      ensures outcome == old(outcome)
    {
      alienY, playerY := newAlienY, newPlayerY;
    }
  }

  /** Destroying the active bullet `id` of a group whose ids are distinct and
      below `bound`: exactly that bullet goes, and the rest keep both facts. */
  method RemoveActive(s: seq<Bullet>, id: nat, ghost bound: nat) returns (rest: seq<Bullet>)
    requires DistinctIds(s) && id in Ids(s)
    requires forall b :: b in s ==> b.id < bound
    ensures rest == Without(s, id) && |rest| == |s| - 1
    ensures DistinctIds(rest) && forall b :: b in rest ==> b.id < bound
  {
    var i :| 0 <= i < |s| && s[i].id == id;
    WithoutRemovesOne(s, i);
    rest := Without(s, id);
  }

  lemma WithoutKeepsIdsBelow(s: seq<Bullet>, id: nat, bound: nat)
    requires forall b :: b in s ==> b.id < bound
    ensures forall b :: b in Without(s, id) ==> b.id < bound
  {
  }

  /** A fight in which every player shot hits the alien at once: the alien
      survives 49 hits and the 50th requests the winning GameOverScene. */
  method AlienFallsOnFiftiethHit() returns (hits: nat, outcome: Outcome)
    ensures hits == 50 && outcome == Win
  {
    var scene := new GameScene();
    hits := 0;
    while scene.outcome == Undecided
      invariant scene.Valid()
      invariant scene.alienHealth == AlienMaxHealth - AlienDamage * hits
      invariant scene.playerHealth == PlayerMaxHealth
      decreases scene.alienHealth
    {
      scene.ShootPlayer();
      var fired := scene.playerBullets[|scene.playerBullets| - 1];
      assert fired.id in Ids(scene.playerBullets);
      scene.HitAlien(Some(fired.id));
      hits := hits + 1;
    }
    outcome := scene.outcome;
  }

  /** A fight in which every alien shot hits the player at once: the player
      survives four hits and the fifth requests the losing GameOverScene. */
  method PlayerFallsOnFifthHit() returns (hits: nat, outcome: Outcome)
    ensures hits == 5 && outcome == Lose
  {
    var scene := new GameScene();
    hits := 0;
    while scene.outcome == Undecided
      invariant scene.Valid()
      invariant scene.playerHealth == PlayerMaxHealth - PlayerDamage * hits
      invariant hits <= 5
      invariant scene.alienHealth == AlienMaxHealth
      decreases scene.playerHealth
    {
      scene.ShootAlien();
      scene.HitPlayer(scene.nextBulletId - 1);
      hits := hits + 1;
    }
    outcome := scene.outcome;
  }
}
