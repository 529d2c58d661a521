# GameScene combat, modelled in Dafny

This project models the combat state of `GameScene` in `game.js`, a Phaser
boss-fight shooter. The player ship auto-fires upwards and follows the pointer.
A single alien boss patrols left and right, fires downwards on a timer, and is
hit through an invisible hitbox. Each non-fatal hit on the alien destroys that
hitbox and makes a new one; the fatal hit leaves none. Both sides lose health
until one of them requests the `GameOverScene`.

- `combat.dfy`, module `Combat`: the value-level rules. It holds the bullet
  datatype, the shoot-delay formula, the pointer clamp, the patrol step, bullet
  removal by sprite identity, and the per-frame cull of a bullet group. The cull
  comes twice: as `game.js` writes it and as corrected (see Findings).
- `game_scene.dfy`, module `Scene`: the scene object as a class. `GameScene`
  holds the fields `create` sets. Its methods are the scene's handlers (`update`,
  `shootPlayer`, `shootAlien`, `hitAlien`, `hitPlayer`, the pointer-move
  handler). They change those fields in place. `Hitbox` is the alien's
  hitbox sprite, held in a nullable slot. Two client methods play out a full
  fight on each side.

Phaser decides when a frame runs, when a timer fires and when two bodies
overlap. Here the caller makes those choices by calling the matching method.
`HitAlien` may be called only while a hitbox exists, because Phaser reports
overlaps only with a live body. The object invariant `GameScene.Valid()` records
what holds from `create` on:
- the patrol state is within [78, 522];
- alien health is a multiple of 10 within [0, 500];
- a hitbox exists exactly while the alien is alive;
- the timer delay is the formula's value at the last non-fatal health;
- player health is a multiple of 20 and at most 100;
- bullet identities are distinct;
- the outcome agrees with the two healths.

The model follows the code where an idealised design would differ:
- health is never clamped, and `hitPlayer` has no live-bullet guard, so two
  alien bullets in one frame take 40 and health can go below 0;
- the patrol bound check runs after the move, so x reaches 522 and 78;
- patrol and both timers run from `create` on, not from the end of the entry
  tween;
- the outcome field is simply the last GameOverScene request. Handlers are not
  gated on it, because the scene shuts down through Phaser and not through its
  own code.

## Model

| member | source | states |
|---|---|---|
| Combat.ShootDelay | game.js:294-296 | the delay after a hit at health h is 1000 - (1 - h/500)*700, and is strictly between 300 and 1000 for 0 < h < 500 |
| Combat.ShootDelayWhole | game.js:295 | in exact arithmetic, at a health that is a multiple of 10 the delay is the whole number 300 + 14*(h/10) |
| Combat.ShootDelayMonotone | game.js:294-296 | the delay never grows as health falls; it is 1000 at 500 (the timer's starting delay), 650 at 250 and 300 at 0 |
| Combat.ClampPointer | game.js:188-190 | the player x lies within [30, 570], equals the pointer x inside that strip, and is the point of the strip nearest the pointer |
| Combat.PatrolStep | game.js:233-240 | one frame's move-then-check: a unit direction stays a unit, and it is kept whenever the moved x is strictly between the bounds 80 and 520 (it can flip only at or past a bound) |
| Combat.PatrolStepKeepsInv | game.js:233-240 | one move-then-check patrol step keeps a unit direction and x within [78, 522] (at most 519 moving right, at least 81 moving left) |
| Combat.PatrolKeepsInv | game.js:233-240 | any number of frames from a state satisfying the patrol invariant stays within [78, 522] |
| Combat.PatrolThen | game.js:233-240 | n + m frames of patrol are m frames started from the state after n |
| Combat.PatrolWalkRight | game.js:233-240 | moving right with every new x strictly inside the bounds, x grows by 3 per frame and the direction never turns |
| Combat.PatrolWalkLeft | game.js:233-240 | moving left with every new x strictly inside the bounds, x falls by 3 per frame and the direction never turns |
| Combat.PatrolLegRight | game.js:233-240 | from x0 moving right (x0 + 3 past 80, 519 on the walk), x is x0 + 3n up to 519, and the next frame reaches 522 and turns left |
| Combat.PatrolLegLeft | game.js:233-240 | from x0 moving left (x0 - 3 short of 520, 81 on the walk), x is x0 - 3n down to 81, and the next frame reaches 78 and turns right |
| Combat.PatrolBounce | game.js:233-240 | a right leg ending at 522 is followed by 147 frames walking left and a turn at 78 on the 148th |
| Combat.PatrolRampRight | game.js:233-240 | from x = 300 moving right, x is 300 + 3n for 73 frames; frame 74 reaches 522 (past the bound 520) and turns round |
| Combat.PatrolRampLeft | game.js:238-240 | the alien then walks left and on frame 222 reaches 78 (past the bound 80) and turns round |
| Combat.OutOfBounds | game.js:244-247 | a bullet on screen (0 <= y <= 800) is never out of bounds; above the top it is out iff it is a player bullet, below the bottom iff an alien bullet |
| Combat.Without | game.js:277 | destroying a bullet removes exactly the bullets with that identity, leaves the group unchanged when none has it, and keeps identities distinct |
| Combat.WithoutRemovesOne | game.js:325 | with distinct identities, destroying a live bullet removes exactly that one and keeps the rest in order |
| Combat.Culled | game.js:242-248 | after culling, a bullet is in the group iff it was before and is not out of bounds (player y < 0, alien y > 800) |
| Combat.CulledKeepsInBounds | game.js:243-248 | a group with no bullet out of bounds is left exactly as it was |
| Combat.CullGroup | game.js:243-244 | the corrected cull loop, removing in place, leaves exactly the culled group |
| Combat.ForEachDestroyed | game.js:243-248 | the cull as written never removes an in-bounds bullet and adds nothing; ForEachDestroyedRemovesVisited shows it always removes an out-of-bounds bullet whose predecessor is in bounds (or that comes first) |
| Combat.ForEachDestroyedRemovesVisited | game.js:243-248 | with distinct identities, an out-of-bounds bullet that is first or follows an in-bounds bullet is visited and destroyed: only the bullet right after a destroyed one is stepped over |
| Combat.ForEachDestroyedInBounds | game.js:243-248 | a group with no bullet out of bounds comes through the cull as written unchanged |
| Combat.ForEachDestroyedShrinks | game.js:243-248 | the cull as written never grows a group, and makes it strictly smaller whenever some bullet is out of bounds |
| Combat.ForEachDestroyedNoAdjacent | game.js:243-248 | where no two out-of-bounds bullets are neighbours, the cull as written equals the corrected cull: every out-of-bounds bullet is removed and only those |
| Combat.ForEachDestroyedKeepsDistinct | game.js:243-248 | the cull loop as written keeps bullet identities distinct |
| Combat.ForEachVisit | game.js:243-247 | one visit of the loop as written, destroying or keeping the bullet at the current index, leaves the rest of the cull unchanged |
| Combat.ForEachDestroyLoop | game.js:243-245 | the forEach-with-destroy loop as written, splicing the array it walks, leaves what ForEachDestroyed describes |
| Combat.ForEachDestroySkipsNeighbour | game.js:244 | two adjacent player bullets above the edge: the loop as written keeps the second, the corrected cull removes both |
| Combat.ForEachDestroyedThenCulled | game.js:243-248 | a corrected cull of what the loop as written leaves gives the same group as the corrected cull at once |
| Combat.FramesInBounds | game.js:243-248 | once no bullet is out of bounds, any number of further frames of the cull as written change nothing |
| Combat.FramesCull | game.js:243-248 | repeating the cull as written on as many frames as the group has bullets leaves exactly the corrected cull: skipped bullets are only postponed |
| Scene.GameScene.Valid | game.js:132-166 | the state every handler keeps: alien health a multiple of 10 in [0, 500], player health a multiple of 20 at most 100, a hitbox exactly while the alien lives, the alien x within [78, 522], the timer delay the formula's value, distinct bullet identities, and the outcome agreeing with the healths |
| Scene.GameScene.constructor | game.js:132-206 | the starting state: health 100 and 500, player at (300, 900), alien and hitbox at (300, -100) moving right, empty groups, delay 1000, no outcome, invariant established |
| Scene.GameScene.Update | game.js:225-249 | one frame: the alien moves by direction*3, then turns if x >= 520 or x <= 80; an existing hitbox moves to the alien; each group is what the cull loop as written leaves (ForEachDestroyed), so a bullet the loop skips stays for the frame and FramesCull shows the same loop on later frames removes it; nothing else changes |
| Scene.GameScene.MoveAlien | game.js:232-240 | the patrol half of a frame: the alien state takes one patrol step, an existing hitbox moves to the alien, and nothing else changes |
| Scene.GameScene.CullBullets | game.js:242-248 | the cleanup half of a frame: each group is what the cull loop as written leaves, and nothing else changes |
| Scene.GameScene.ShootPlayer | game.js:251-260 | appends one player bullet at (player x, player y - 30) with velocity -600; the alien group and all else unchanged |
| Scene.GameScene.ShootAlien | game.js:262-272 | appends one alien bullet at (alien x, alien y + 30) with velocity 400; the player group and all else unchanged |
| Scene.GameScene.HitAlien | game.js:274-322 | a missing or destroyed bullet changes nothing; a live one is removed, health drops by 10; at 0 no hitbox remains, the outcome is a win and the delay is kept; otherwise one fresh hitbox sits at the alien and the delay follows the new health |
| Scene.GameScene.DamageAlien | game.js:277-321 | past the guard: exactly the given live bullet leaves the group, the old hitbox is gone, health drops by 10, and either the win is requested with no new hitbox and the delay kept, or a fresh hitbox sits at the alien's (x, y) and the delay is the formula at the new health |
| Scene.GameScene.StrikeAlien | game.js:278-321 | the old hitbox is gone and health drops by 10; at 0 the win is requested with no new hitbox and the delay kept, otherwise a fresh hitbox sits at the alien and the delay is the formula at the new health; the bullet groups are untouched |
| Scene.GameScene.HitPlayer | game.js:324-332 | the bullet is removed if still there, health drops by 20 unconditionally, and at or below 0 the outcome is a loss |
| Scene.GameScene.PointerMove | game.js:189 | the player x becomes the clamped pointer x; nothing else changes |
| Scene.GameScene.Descend | game.js:143-163 | the entry tweens write the ships' y; nothing else changes |
| Scene.AlienFallsOnFiftiethHit | game.js:291-292 | from the starting state, with every player shot hitting, the alien survives 49 hits and the 50th requests the win |
| Scene.PlayerFallsOnFifthHit | game.js:329-331 | from the starting state, with every alien shot hitting, the player survives 4 hits and the 5th requests the loss |

## Findings

| source | as written | input that shows it | evidently intended | confidence | as-written member | corrected member |
|---|---|---|---|---|---|---|
| game.js:243-248 | `children.entries.forEach` calls `destroy()`, and a Phaser group takes a destroyed child out of that same array by splicing it, so the bullet that slides into the freed index is never visited | two adjacent player bullets at y = -5 and y = -2: the second stays for the frame | every bullet past the edge is removed in the same frame | medium, not executed; rests on Phaser's group removing a destroyed child from `children.entries`, which is not part of this model | Combat.ForEachDestroySkipsNeighbour | Combat.CullGroup |

`GameScene.Update` runs the cull as `game.js` writes it (`Combat.ForEachDestroyed`,
`Combat.ForEachDestroyLoop`). `Combat.Culled` and `Combat.CullGroup` are the
corrected cull. `Combat.ForEachDestroyedThenCulled` and `Combat.FramesCull`
relate the two: running the loop as written again on later frames removes the
bullets it missed, and after as many frames as the group has bullets the
result is the corrected cull. This assumes the bullets do not move in between,
since their motion is not part of this model.

## Left out

- Rendering, all of it presentational or floating-point: star fields, logo,
  title, tint flashes, sprite scales, and health-bar drawing (`updateHealthBars`).
- Tweens and easing. `Descend` only sets the ships' y to whatever the tween
  wrote. The first hitbox's own tween is dropped too, because `update` moves an
  existing hitbox onto the alien every frame.
- Arcade physics: bullets moving by their velocity, and overlap detection. The
  caller chooses when `HitAlien` and `HitPlayer` run and which bullet they get.
  The overlap collider that `hitAlien` registers for each new hitbox is not
  modelled.
- Timer scheduling. `ShootPlayer` and `ShootAlien` are explicit calls; only the
  alien timer's stored `delay` is modelled.
- Combat.ShootDelayWhole: the delay is modelled as an exact real, and
  `ShootDelay` computes it exactly. In the browser it is a double, so the whole
  number this lemma states can be off in the last bit: at h = 150 the double
  result is 510.00000000000006, not 510. The strict bounds 300 < d < 1000 and
  the monotonicity that `ShootDelay` and `ShootDelayMonotone` state are far
  from that rounding and hold for doubles too.
- Positions are integers. The pointer x and the tweened y values are real
  numbers in the browser; the alien's x stays whole, since it starts at 300 and
  moves by 3.
- Scene switching. The model records the requested outcome but not the shutdown
  of the scene that follows it.
- `MenuScene`, `GameOverScene`, browser navigation and messaging, and the Phaser
  game configuration are not part of this model.
