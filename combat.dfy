/**
 * Combat rules of the boss fight in GameScene (game.js): the data the scene
 * keeps about bullets, the alien's patrol, the shoot-timer formula, the
 * pointer clamp and the per-frame culling of the two bullet groups.
 * Everything here is a value; the scene object that owns the state is in
 * module Scene.
 */
module Combat {

  datatype Option<T> = None | Some(value: T)

  /** A bullet sprite of one of the two physics groups. `id` stands for the
      sprite's identity: two bullets created by different shots never share it. */
  datatype Bullet = Bullet(id: nat, x: int, y: int, vy: int)

  /** Which group a bullet belongs to: fired by the player or by the alien. */
  datatype Side = PlayerSide | AlienSide

  /** The GameOverScene request the scene has made, if any. */
  datatype Outcome = Undecided | Win | Lose

  const PlayerMaxHealth: int := 100
  const AlienMaxHealth: int := 500
  /** Health an alien hit takes away; a player hit takes PlayerDamage. */
  const AlienDamage: int := 10
  const PlayerDamage: int := 20

  const PatrolSpeed: int := 3
  const PatrolLeft: int := 80
  const PatrolRight: int := 520

  const FieldHeight: int := 800
  const PlayerBulletSpeed: int := -600
  const AlienBulletSpeed: int := 400
  /** Vertical distance from a ship to the bullet it fires. */
  const MuzzleOffset: int := 30

  const PointerMin: int := 30
  const PointerMax: int := 570

  // ---------------------------------------------------------------------
  // Shoot timer
  // ---------------------------------------------------------------------

  /** The alien shoot-timer delay for a given alien health, in milliseconds,
      as the scene computes it after every non-fatal hit. */
  function ShootDelay(health: int): (d: real)
    ensures 0 < health < AlienMaxHealth ==> 300.0 < d < 1000.0
  {
    1000.0 - (1.0 - health as real / 500.0) * 700.0
  }

  /** While health is a multiple of 10 the delay is a whole number of
      milliseconds: 300 plus 14 for every 10 health left. */
  lemma ShootDelayWhole(health: int)
    requires health % 10 == 0
    ensures ShootDelay(health) == (300 + 14 * (health / 10)) as real
  {
  }

  /** The delay shortens as the alien loses health, from 1000 ms at full
      health through 650 ms at half health to 300 ms at none. */
  lemma ShootDelayMonotone(lower: int, higher: int)
    requires lower <= higher
    ensures ShootDelay(lower) <= ShootDelay(higher)
    ensures ShootDelay(AlienMaxHealth) == 1000.0
    ensures ShootDelay(250) == 650.0
    ensures ShootDelay(0) == 300.0
  {
  }

  // ---------------------------------------------------------------------
  // Pointer
  // ---------------------------------------------------------------------

  function Dist(a: int, b: int): nat {
    if a <= b then b - a else a - b
  }

  /** The player x the pointer handler sets for a pointer at `px`: the
      position of the playfield's allowed strip nearest to the pointer. */
  function ClampPointer(px: int): (x: int)
    ensures PointerMin <= x <= PointerMax
    ensures forall z :: PointerMin <= z <= PointerMax ==> Dist(x, px) <= Dist(z, px)
    ensures PointerMin <= px <= PointerMax ==> x == px
  {
    if px < PointerMin then PointerMin
    else if px > PointerMax then PointerMax
    else px
  }

  // ---------------------------------------------------------------------
  // Alien patrol
  // ---------------------------------------------------------------------

  /** One frame of patrol: move first, then turn round if the new x is at or
      past either bound. Returns the new (x, direction). */
  function PatrolStep(x: int, dir: int): (r: (int, int))
    ensures r.1 == dir || r.1 == -dir
    ensures PatrolLeft < r.0 < PatrolRight ==> r.1 == dir
  {
    var x' := x + dir * PatrolSpeed;
    (x', if x' >= PatrolRight || x' <= PatrolLeft then -dir else dir)
  }

  /** The patrol state after `n` frames from (x, dir). */
  function Patrol(x: int, dir: int, n: nat): (int, int) {
    if n == 0 then (x, dir)
    else
      var p := Patrol(x, dir, n - 1);
      PatrolStep(p.0, p.1)
  }

  /** What holds of every patrol state reachable from the scene's start: the
      direction is a unit, and x is within two pixels beyond the bounds
      (the bound check runs after the move, so x can end a step past a
      bound). Moving right, x is at most 519; moving left, at least 81. */
  predicate PatrolInv(x: int, dir: int) {
    && (dir == 1 || dir == -1)
    && PatrolLeft - 2 <= x <= PatrolRight + 2
    && (dir == 1 ==> x <= PatrolRight - 1)
    && (dir == -1 ==> x >= PatrolLeft + 1)
  }

  lemma PatrolStepKeepsInv(x: int, dir: int)
    requires PatrolInv(x, dir)
    ensures PatrolInv(PatrolStep(x, dir).0, PatrolStep(x, dir).1)
  {
  }

  lemma {:induction false} PatrolKeepsInv(x: int, dir: int, n: nat)
    requires PatrolInv(x, dir)
    ensures PatrolInv(Patrol(x, dir, n).0, Patrol(x, dir, n).1)
    ensures PatrolLeft - 2 <= Patrol(x, dir, n).0 <= PatrolRight + 2
  {
    if n > 0 {
      PatrolKeepsInv(x, dir, n - 1);
      var p := Patrol(x, dir, n - 1);
      PatrolStepKeepsInv(p.0, p.1);
    }
  }

  /** Frames compose: n + m frames are m frames after the first n. */
  lemma {:induction false} PatrolThen(x: int, dir: int, n: nat, m: nat)
    ensures Patrol(x, dir, n + m) == Patrol(Patrol(x, dir, n).0, Patrol(x, dir, n).1, m)
  {
    if m > 0 {
      PatrolThen(x, dir, n, m - 1);
    }
  }

  /** Moving right with every new x strictly inside the bounds, the alien
      advances 3 per frame and never turns. */
  lemma {:induction false} PatrolWalkRight(x: int, n: nat)
    requires PatrolLeft < x + PatrolSpeed && x + PatrolSpeed * n < PatrolRight
    ensures Patrol(x, 1, n) == (x + PatrolSpeed * n, 1)
  {
    if n > 0 {
      PatrolWalkRight(x, n - 1);
    }
  }

  lemma {:induction false} PatrolWalkLeft(x: int, n: nat)
    requires x - PatrolSpeed < PatrolRight && x - PatrolSpeed * n > PatrolLeft
    ensures Patrol(x, -1, n) == (x - PatrolSpeed * n, -1)
  {
    if n > 0 {
      PatrolWalkLeft(x, n - 1);
    }
  }

  /** A right leg from x0 (with x0 + 3 past the left bound and 519 on its
      walk): x0 + 3n until 519, then one more frame reaches 522 and turns. */
  lemma PatrolLegRight(x0: int, n: nat)
    requires PatrolLeft < x0 + PatrolSpeed <= 519 && (519 - x0) % 3 == 0
    requires n <= (519 - x0) / 3 + 1
    ensures Patrol(x0, 1, n) == if n <= (519 - x0) / 3 then (x0 + 3 * n, 1) else (522, -1)
  {
    if n <= (519 - x0) / 3 {
      PatrolWalkRight(x0, n);
    } else {
      PatrolWalkRight(x0, n - 1);
      assert Patrol(x0, 1, n) == PatrolStep(Patrol(x0, 1, n - 1).0, Patrol(x0, 1, n - 1).1);
    }
  }

  /** From the start (300, moving right) the alien walks right for 74 frames
      and turns round at x = 522, two pixels past the right bound. */
  lemma PatrolRampRight(n: nat)
    requires n <= 74
    ensures Patrol(300, 1, n) == if n < 74 then (300 + 3 * n, 1) else (522, -1)
  {
    PatrolLegRight(300, n);
  }

  /** A left leg from x0 (with x0 - 3 short of the right bound and 81 on its
      walk): x0 - 3n until 81, then one more frame reaches 78 and turns. */
  lemma PatrolLegLeft(x0: int, n: nat)
    requires 81 <= x0 - PatrolSpeed < PatrolRight && (x0 - 81) % 3 == 0
    requires n <= (x0 - 81) / 3 + 1
    ensures Patrol(x0, -1, n) == if n <= (x0 - 81) / 3 then (x0 - 3 * n, -1) else (78, 1)
  {
    if n <= (x0 - 81) / 3 {
      PatrolWalkLeft(x0, n);
    } else {
      PatrolWalkLeft(x0, n - 1);
      assert Patrol(x0, -1, n) == PatrolStep(Patrol(x0, -1, n - 1).0, Patrol(x0, -1, n - 1).1);
    }
  }

  /** A right leg followed by a left leg: from x0 moving right, the alien
      turns at 522 after (519 - x0) / 3 + 1 frames, then walks left and turns
      at 78 148 frames later. */
  lemma PatrolBounce(x0: int, n: nat)
    requires PatrolLeft < x0 + PatrolSpeed <= 519 && (519 - x0) % 3 == 0
    requires (519 - x0) / 3 + 1 <= n <= (519 - x0) / 3 + 149
    ensures var a := (519 - x0) / 3 + 1;
      Patrol(x0, 1, n) == if n < a + 148 then (522 - 3 * (n - a), -1) else (78, 1)
  {
    var a := (519 - x0) / 3 + 1;
    PatrolLegRight(x0, a);
    PatrolThen(x0, 1, a, n - a);
    PatrolLegLeft(522, n - a);
  }

  /** It then walks left for 148 frames and turns round at x = 78, two
      pixels past the left bound. */
  lemma PatrolRampLeft(n: nat)
    requires 74 <= n <= 222
    ensures Patrol(300, 1, n) == if n < 222 then (522 - 3 * (n - 74), -1) else (78, 1)
  {
    PatrolBounce(300, n);
  }

  // ---------------------------------------------------------------------
  // Bullet groups
  // ---------------------------------------------------------------------

  function Ids(s: seq<Bullet>): set<nat> {
    set b | b in s :: b.id
  }

  predicate DistinctIds(s: seq<Bullet>) {
    forall i, j :: 0 <= i < j < |s| ==> s[i].id != s[j].id
  }

  /** The group after the bullet with sprite `id` is destroyed; destroying a
      bullet that is no longer in the group leaves the group as it was. */
  function Without(s: seq<Bullet>, id: nat): (r: seq<Bullet>)
    ensures forall b :: b in r <==> b in s && b.id != id
    ensures id !in Ids(s) ==> r == s
    ensures DistinctIds(s) ==> DistinctIds(r)
  {
    if s == [] then []
    else if s[0].id == id then Without(s[1..], id)
    else
      var rest := Without(s[1..], id);
      DistinctPrepend(s, rest);
      [s[0]] + rest
  }

  lemma DistinctTail(s: seq<Bullet>)
    requires DistinctIds(s) && s != []
    ensures DistinctIds(s[1..])
    ensures forall b :: b in s[1..] ==> b.id != s[0].id
  {
    forall b | b in s[1..]
      ensures b.id != s[0].id
    {
      var j :| 0 <= j < |s[1..]| && s[1..][j] == b;
      assert s[j + 1] == b;
    }
  }

  /** Keeping the head of a group with distinct ids in front of any part of
      its tail keeps the ids distinct. */
  lemma DistinctPrepend(s: seq<Bullet>, rest: seq<Bullet>)
    requires s != []
    requires forall b :: b in rest ==> b in s[1..]
    requires DistinctIds(s) ==> DistinctIds(rest)
    ensures DistinctIds(s) ==> DistinctIds([s[0]] + rest)
  {
    if DistinctIds(s) {
      DistinctTail(s);
      var t := [s[0]] + rest;
      forall i, j | 0 <= i < j < |t|
        ensures t[i].id != t[j].id
      {
        if i == 0 {
          assert t[j] == rest[j - 1] && t[j] in rest;
        } else {
          assert t[i] == rest[i - 1] && t[j] == rest[j - 1];
        }
      }
    }
  }

  /** Destroying the head's identity, when no other bullet has it, leaves
      the tail. */
  lemma WithoutHead(s: seq<Bullet>)
    requires DistinctIds(s) && s != []
    ensures Without(s, s[0].id) == s[1..]
  {
    DistinctTail(s);
    assert s[0].id !in Ids(s[1..]);
  }

  /** Destroying another identity keeps the head in front. */
  lemma WithoutPastHead(s: seq<Bullet>, id: nat)
    requires s != [] && s[0].id != id
    ensures Without(s, id) == [s[0]] + Without(s[1..], id)
  {
  }

  lemma SpliceInTail(s: seq<Bullet>, i: nat)
    requires 0 < i < |s|
    ensures [s[0]] + (s[1..][..i - 1] + s[1..][i..]) == s[..i] + s[i + 1..]
  {
    assert s[1..][..i - 1] == s[1..i];
    assert s[1..][i..] == s[i + 1..];
    assert [s[0]] + s[1..i] == s[..i];
  }

  lemma DistinctTailOf(s: seq<Bullet>)
    requires s != []
    ensures DistinctIds(s) ==> DistinctIds(s[1..])
  {
    if DistinctIds(s) {
      DistinctTail(s);
    }
  }

  /** With distinct ids, destroying an active bullet takes exactly that one
      bullet out and keeps the others in order. */
  lemma {:induction false} WithoutRemovesOne(s: seq<Bullet>, i: nat)
    requires DistinctIds(s) && i < |s|
    ensures Without(s, s[i].id) == s[..i] + s[i + 1..]
    ensures |Without(s, s[i].id)| == |s| - 1
  {
    if i == 0 {
      WithoutHead(s);
    } else {
      var id := s[i].id;
      assert s[0].id != id;
      DistinctTailOf(s);
      assert s[1..][i - 1] == s[i];
      WithoutRemovesOne(s[1..], i - 1);
      WithoutPastHead(s, id);
      SpliceInTail(s, i);
    }
  }

  /** Whether a bullet of the given group has left the play area: a player
      bullet above the top edge, an alien bullet below the bottom edge. */
  predicate OutOfBounds(side: Side, b: Bullet)
    ensures 0 <= b.y <= FieldHeight ==> !OutOfBounds(side, b)
    ensures b.y < 0 ==> OutOfBounds(side, b) == (side == PlayerSide)
    ensures b.y > FieldHeight ==> OutOfBounds(side, b) == (side == AlienSide)
  {
    match side
    case PlayerSide => b.y < 0
    case AlienSide => b.y > FieldHeight
  }

  /** The group after culling: every bullet out of bounds is removed and every
      other bullet is kept, in order. */
  function Culled(s: seq<Bullet>, side: Side): (r: seq<Bullet>)
    ensures forall b :: b in r <==> b in s && !OutOfBounds(side, b)
    ensures DistinctIds(s) ==> DistinctIds(r)
    ensures |r| <= |s|
  {
    if s == [] then []
    else if OutOfBounds(side, s[0]) then Culled(s[1..], side)
    else
      var rest := Culled(s[1..], side);
      DistinctPrepend(s, rest);
      [s[0]] + rest
  }

  lemma {:induction false} CulledAppend(s: seq<Bullet>, t: seq<Bullet>, side: Side)
    ensures Culled(s + t, side) == Culled(s, side) + Culled(t, side)
  {
    if s == [] {
      assert s + t == t;
    } else {
      assert (s + t)[0] == s[0];
      assert (s + t)[1..] == s[1..] + t;
      CulledAppend(s[1..], t, side);
    }
  }

  /** A group with nothing out of bounds is left exactly as it was. */
  lemma {:induction false} CulledKeepsInBounds(s: seq<Bullet>, side: Side)
    requires forall i :: 0 <= i < |s| ==> !OutOfBounds(side, s[i])
    ensures Culled(s, side) == s
  {
    if s != [] {
      CulledKeepsInBounds(s[1..], side);
    }
  }

  /** Destroying an out-of-bounds bullet at index `k` keeps what the rest of
      the walk will leave. */
  lemma CullRemoveStep(kept: seq<Bullet>, k: nat, side: Side)
    requires k < |kept| && OutOfBounds(side, kept[k])
    ensures kept[..k] + Culled(kept[k..], side)
         == (kept[..k] + kept[k + 1..])[..k] + Culled((kept[..k] + kept[k + 1..])[k..], side)
  {
    assert kept[k..][0] == kept[k] && kept[k..][1..] == kept[k + 1..];
    assert (kept[..k] + kept[k + 1..])[..k] == kept[..k];
    assert (kept[..k] + kept[k + 1..])[k..] == kept[k + 1..];
  }

  /** Stepping over an in-bounds bullet at index `k` moves it into the kept
      prefix. */
  lemma CullKeepStep(kept: seq<Bullet>, k: nat, side: Side)
    requires k < |kept| && !OutOfBounds(side, kept[k])
    ensures kept[..k] + Culled(kept[k..], side) == kept[..k + 1] + Culled(kept[k + 1..], side)
  {
    assert kept[k..][0] == kept[k] && kept[k..][1..] == kept[k + 1..];
    assert kept[..k + 1] == kept[..k] + [kept[k]];
  }

  /** Culling as the fixed loop does it: walk the group and destroy each
      bullet out of bounds, staying at the same index after a removal so
      that the bullet that moves into its place is examined too. */
  method CullGroup(entries: seq<Bullet>, side: Side) returns (kept: seq<Bullet>)
    ensures kept == Culled(entries, side)
  {
    kept := entries;
    var k := 0;
    while k < |kept|
      invariant 0 <= k <= |kept|
      invariant Culled(entries, side) == kept[..k] + Culled(kept[k..], side)
      decreases |kept| - k
    {
      if OutOfBounds(side, kept[k]) {
        CullRemoveStep(kept, k, side);
        kept := kept[..k] + kept[k + 1..];
      } else {
        CullKeepStep(kept, k, side);
        k := k + 1;
      }
    }
    assert kept[..k] == kept && kept[k..] == [];
  }

  // ---------------------------------------------------------------------
  // The cull loops as game.js writes them
  // ---------------------------------------------------------------------

  /** What `entries.forEach(b => { if (out) b.destroy(); })` leaves when each
      destroy splices the bullet out of the very array being walked: the
      bullet that slides into the freed index is never visited, so it stays
      for this frame whatever its position. */
  function ForEachDestroyed(s: seq<Bullet>, side: Side): (r: seq<Bullet>)
    ensures forall b :: b in s && !OutOfBounds(side, b) ==> b in r
    ensures forall b :: b in r ==> b in s
    decreases |s|
  {
    if s == [] then []
    else if !OutOfBounds(side, s[0]) then [s[0]] + ForEachDestroyed(s[1..], side)
    else if |s| == 1 then []
    else [s[1]] + ForEachDestroyed(s[2..], side)
  }

  /** The loop as written keeps bullet identities distinct. */
  lemma {:induction false} ForEachDestroyedKeepsDistinct(s: seq<Bullet>, side: Side)
    requires DistinctIds(s)
    ensures DistinctIds(ForEachDestroyed(s, side))
    decreases |s|
  {
    if s == [] {
    } else if !OutOfBounds(side, s[0]) {
      DistinctTail(s);
      ForEachDestroyedKeepsDistinct(s[1..], side);
      DistinctPrepend(s, ForEachDestroyed(s[1..], side));
    } else if |s| > 1 {
      DistinctTail(s);
      var tail, rest := s[1..], ForEachDestroyed(s[2..], side);
      assert tail[1..] == s[2..];
      DistinctTail(tail);
      ForEachDestroyedKeepsDistinct(s[2..], side);
      assert forall b :: b in rest ==> b in tail[1..];
      DistinctPrepend(tail, rest);
    }
  }

  /** One visit of the loop as written at index `k`, when it destroys the
      bullet there and another follows it: the follower is stepped over. */
  lemma ForEachRemoveStep(left: seq<Bullet>, k: nat, side: Side)
    requires k + 1 < |left| && OutOfBounds(side, left[k])
    ensures left[..k] + ForEachDestroyed(left[k..], side)
         == (left[..k] + left[k + 1..])[..k + 1] + ForEachDestroyed((left[..k] + left[k + 1..])[k + 1..], side)
  {
    var t, next := left[k..], left[..k] + left[k + 1..];
    assert t[0] == left[k] && t[1] == left[k + 1] && t[2..] == left[k + 2..];
    assert ForEachDestroyed(t, side) == [left[k + 1]] + ForEachDestroyed(left[k + 2..], side);
    assert next[..k + 1] == left[..k] + [left[k + 1]];
    assert next[k + 1..] == left[k + 2..];
  }

  /** The same visit when the destroyed bullet is the last one. */
  lemma ForEachRemoveLast(left: seq<Bullet>, k: nat, side: Side)
    requires k + 1 == |left| && OutOfBounds(side, left[k])
    ensures left[..k] + ForEachDestroyed(left[k..], side) == left[..k] + left[k + 1..]
  {
    assert left[k..] == [left[k]];
    assert left[k + 1..] == [];
  }

  lemma ForEachKeepStep(left: seq<Bullet>, k: nat, side: Side)
    requires k < |left| && !OutOfBounds(side, left[k])
    ensures left[..k] + ForEachDestroyed(left[k..], side) == left[..k + 1] + ForEachDestroyed(left[k + 1..], side)
  {
    assert left[k..][0] == left[k] && left[k..][1..] == left[k + 1..];
    assert left[..k + 1] == left[..k] + [left[k]];
  }

  /** One visit of the loop as written at index `k`, in either case: what is
      still to come after the visit is what was to come before it. */
  lemma ForEachVisit(left: seq<Bullet>, k: nat, side: Side)
    requires k < |left|
    ensures var next := if OutOfBounds(side, left[k]) then left[..k] + left[k + 1..] else left;
      && |next| <= |left|
      && (k + 1 <= |next| ==> left[..k] + ForEachDestroyed(left[k..], side)
                              == next[..k + 1] + ForEachDestroyed(next[k + 1..], side))
      && (k + 1 > |next| ==> left[..k] + ForEachDestroyed(left[k..], side) == next)
  {
    if OutOfBounds(side, left[k]) {
      if k + 1 < |left| {
        ForEachRemoveStep(left, k, side);
      } else {
        ForEachRemoveLast(left, k, side);
      }
    } else {
      ForEachKeepStep(left, k, side);
    }
  }

  /** The loop of game.js as written: forEach visits indices 0 .. n-1 of the
      array it started on (n its length then), skipping indices past the
      current end, and a destroy removes the visited bullet in place. */
  method ForEachDestroyLoop(entries: seq<Bullet>, side: Side) returns (left: seq<Bullet>)
    ensures left == ForEachDestroyed(entries, side)
  {
    left := entries;
    var n := |entries|;
    var k := 0;
    while k < n
      invariant 0 <= k <= n && |left| <= n
      invariant k <= |left| ==> ForEachDestroyed(entries, side) == left[..k] + ForEachDestroyed(left[k..], side)
      invariant k > |left| ==> ForEachDestroyed(entries, side) == left
    {
      if k < |left| {
        ForEachVisit(left, k, side);
        if OutOfBounds(side, left[k]) {
          left := left[..k] + left[k + 1..];
        }
      }
      k := k + 1;
    }
    if k == |left| {
      assert left[..k] == left && left[k..] == [];
    }
  }

  /** The loop as written can leave a bullet that is out of bounds: two
      player bullets above the top edge, side by side in the group, and only
      the first is destroyed. */
  lemma ForEachDestroySkipsNeighbour()
    ensures var s := [Bullet(0, 300, -5, PlayerBulletSpeed), Bullet(1, 300, -2, PlayerBulletSpeed)];
            && OutOfBounds(PlayerSide, s[1])
            && ForEachDestroyed(s, PlayerSide) == [s[1]]
            && Culled(s, PlayerSide) == []
  {
  }

  /** Where no two out-of-bounds bullets are neighbours, the loop as written
      misses nothing: it removes every out-of-bounds bullet, exactly as the
      corrected cull does. */
  lemma {:induction false} ForEachDestroyedNoAdjacent(s: seq<Bullet>, side: Side)
    requires forall i :: 0 <= i < |s| - 1 ==> !(OutOfBounds(side, s[i]) && OutOfBounds(side, s[i + 1]))
    ensures ForEachDestroyed(s, side) == Culled(s, side)
    decreases |s|
  {
    if s == [] {
    } else if !OutOfBounds(side, s[0]) {
      var t := s[1..];
      assert forall i :: 0 <= i < |t| ==> t[i] == s[i + 1];
      ForEachDestroyedNoAdjacent(t, side);
    } else if |s| > 1 {
      assert !OutOfBounds(side, s[1]);
      var t := s[2..];
      assert forall i :: 0 <= i < |t| ==> t[i] == s[i + 2];
      ForEachDestroyedNoAdjacent(t, side);
      assert s[1..][0] == s[1] && s[1..][1..] == s[2..];
    }
  }

  /** Culling what the loop as written leaves with the corrected cull gives
      what the corrected cull gives at once. */
  lemma {:induction false} ForEachDestroyedThenCulled(s: seq<Bullet>, side: Side)
    ensures Culled(ForEachDestroyed(s, side), side) == Culled(s, side)
    decreases |s|
  {
    if s == [] {
    } else if !OutOfBounds(side, s[0]) {
      ForEachDestroyedThenCulled(s[1..], side);
      CulledAppend([s[0]], ForEachDestroyed(s[1..], side), side);
      CulledAppend([s[0]], s[1..], side);
      assert [s[0]] + s[1..] == s;
    } else if |s| == 1 {
    } else {
      ForEachDestroyedThenCulled(s[2..], side);
      CulledAppend([s[1]], ForEachDestroyed(s[2..], side), side);
      CulledAppend([s[1]], s[2..], side);
      assert [s[1]] + s[2..] == s[1..];
    }
  }

  /** The loop as written never steps over the first of a run of
      out-of-bounds bullets: one whose predecessor (if any) is in bounds is
      always destroyed. */
  lemma {:induction false} ForEachDestroyedRemovesVisited(s: seq<Bullet>, side: Side, i: nat)
    requires DistinctIds(s) && i < |s| && OutOfBounds(side, s[i])
    requires i == 0 || !OutOfBounds(side, s[i - 1])
    ensures s[i] !in ForEachDestroyed(s, side)
    decreases |s|
  {
    DistinctTail(s);
    if i == 0 {
      if |s| > 1 {
        assert s[1..][0] == s[1] && s[1..][1..] == s[2..];
        assert forall b :: b in s[2..] ==> b in s[1..];
      }
    } else if !OutOfBounds(side, s[0]) {
      assert s[1..][i - 1] == s[i];
      ForEachDestroyedRemovesVisited(s[1..], side, i - 1);
    } else {
      var t := s[1..];
      assert i >= 2 && t[1..] == s[2..] && t[i - 1] == s[i];
      DistinctTail(t);
      assert t[1..][i - 2] == s[i];
      ForEachDestroyedRemovesVisited(t[1..], side, i - 2);
    }
  }

  /** A group with no bullet out of bounds comes through the loop as written
      unchanged. */
  lemma {:induction false} ForEachDestroyedInBounds(s: seq<Bullet>, side: Side)
    requires forall i :: 0 <= i < |s| ==> !OutOfBounds(side, s[i])
    ensures ForEachDestroyed(s, side) == s
    decreases |s|
  {
    if s != [] {
      var t := s[1..];
      assert forall i :: 0 <= i < |t| ==> t[i] == s[i + 1];
      ForEachDestroyedInBounds(t, side);
      assert [s[0]] + t == s;
    }
  }

  /** The loop as written never grows a group, and shrinks it whenever some
      bullet is out of bounds: the first such bullet is always visited. */
  lemma {:induction false} ForEachDestroyedShrinks(s: seq<Bullet>, side: Side)
    ensures |ForEachDestroyed(s, side)| <= |s|
    ensures (exists i :: 0 <= i < |s| && OutOfBounds(side, s[i])) ==> |ForEachDestroyed(s, side)| < |s|
    decreases |s|
  {
    if s == [] {
    } else if !OutOfBounds(side, s[0]) {
      var t := s[1..];
      ForEachDestroyedShrinks(t, side);
      if i :| 0 <= i < |s| && OutOfBounds(side, s[i]) {
        assert i > 0 && t[i - 1] == s[i];
      }
    } else if |s| > 1 {
      ForEachDestroyedShrinks(s[2..], side);
    }
  }

  /** The cull of n successive frames, each running the loop as written. */
  function Frames(s: seq<Bullet>, side: Side, n: nat): seq<Bullet>
    decreases n
  {
    if n == 0 then s else Frames(ForEachDestroyed(s, side), side, n - 1)
  }

  /** Once nothing is out of bounds, further frames change nothing. */
  lemma {:induction false} FramesInBounds(s: seq<Bullet>, side: Side, n: nat)
    requires forall i :: 0 <= i < |s| ==> !OutOfBounds(side, s[i])
    ensures Frames(s, side, n) == s
  {
    if n > 0 {
      ForEachDestroyedInBounds(s, side);
      FramesInBounds(s, side, n - 1);
    }
  }

  /** The skipped bullets are only postponed: after as many frames as the
      group has bullets, repeating the loop as written has removed exactly
      the out-of-bounds bullets, as the corrected cull does at once. */
  lemma {:induction false} FramesCull(s: seq<Bullet>, side: Side, n: nat)
    requires n >= |s|
    ensures Frames(s, side, n) == Culled(s, side)
    decreases n
  {
    if i :| 0 <= i < |s| && OutOfBounds(side, s[i]) {
      ForEachDestroyedShrinks(s, side);
      var next := ForEachDestroyed(s, side);
      assert n >= 1 && n - 1 >= |next|;
      assert Frames(s, side, n) == Frames(next, side, n - 1);
      FramesCull(next, side, n - 1);
      ForEachDestroyedThenCulled(s, side);
    } else {
      FramesInBounds(s, side, n);
      CulledKeepsInBounds(s, side);
    }
  }
}
