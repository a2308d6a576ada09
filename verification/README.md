# Grumpy-cat space shooter, part two: a Dafny model

This project models the sequential core of `space_shooter_part_two.js`, a browser
game in which a ship falls under gravity, rises while the space bar is held, and
flies over a panning background. Walls are meant to come from a fixed-size object
pool. Four pieces are modelled:

- **The recycling pool** (`Pool`): a fixed array of pre-built elements.
  - `get` recycles the dead element in the last slot and moves it to the front.
  - `getTwo` does this for the last two slots, or does nothing.
  - `animate` draws the alive elements from the front. An element that reports
    leaving the screen is cleared and moved to the tail.
  - The element class's `spawn`, `draw` and `clear` are parameters, so the pool
    is modelled over an abstract element.
  - Each element carries an identity, so that "no element is ever created or
    lost" can be stated as a permutation of identities.
  - A pool is *valid* when its capacity `size` is at least 1, its array holds
    exactly `size` elements, the alive elements form a prefix, and no object
    sits in two slots.
  - Module `RecyclingPool` (`pool.dfy`) holds the operations. Module
    `RecyclingPoolProofs` (`pool_proofs.dfy`) holds their properties.
- **The background pan** (`Background.draw`): `x` moves left by `speed` each frame
  and is reset to 0 once `x <= -canvasWidth`. Module `BackgroundPan`
  (`background.dfy`).
- **The ship's vertical step** (`Ship.move`): one explicit Euler step with a fixed
  timestep. A held space bar first overwrites the velocity with the impulse -6.
  Numbers are Dafny reals, an idealisation of JavaScript doubles. Module
  `ShipMotion` (`ship.dfy`).
- **The key status** (`KEY_CODES`, `KEY_STATUS`, `onkeydown`, `onkeyup`): five key
  codes map to action names. Every action starts released. A key event changes
  only the entry of its own action. Module `KeyInput` (`keys.dfy`).

Some behaviours of the source are modelled exactly as written:

- **A missing slot is an error result.** Reading `.alive` of a slot the array does
  not have raises a TypeError in the script. The model returns
  `Undefined(index)` instead of forbidding the call. This covers a pool built for
  a kind other than `"wall"`, which stays empty, a capacity below 1 in `get`
  and `getTwo`, and `getTwo` on a pool of capacity 1 when its one slot is dead.
  When that slot is alive, the condition short-circuits and `getTwo` does
  nothing. With a capacity below 1, the loop of `animate` never runs.
- **A fresh wall is dead.** A newly built wall never sets `alive`. Its `alive` is
  therefore `undefined`, which is falsy, so the model builds it dead.
- **`animate` skips an element after a splice.** The loop index still advances
  after `splice(i, 1)`, so the element that slides into slot `i` is not drawn on
  that pass. `AnimateSkipsSlidElement` shows this on three elements.
- **Where the code and its own descriptions disagree, the model follows the code.**
  - The comment above `animate` says that an off-screen element is pushed to the
    front of the array. The code appends it to the tail.
  - The comment inside `animate` (line 141) says the loop draws until it meets a
    dead element. The loop does stop there, but the element that slides into a
    spliced slot is not drawn (lines 140-146), as described above.
  - `animate` expects `draw()` to report leaving the screen, but `Wall.draw`
    (lines 197-209) returns nothing, so it never reports it. The model therefore
    uses an abstract element.

## Model

| member | source | states |
|---|---|---|
| RecyclingPool.Create | space_shooter_part_two.js:93-110 | `new Pool(maxSize)` then `init(kind)`. Only the kind "wall" fills the array, with exactly `maxSize` dead elements numbered 0 to `maxSize - 1`. Any other kind, or a capacity of 0 or less, leaves the array empty. |
| RecyclingPool.Get | space_shooter_part_two.js:116-121 | A missing last slot is an error. An alive last slot leaves the pool exactly as it was, so the request is dropped. A dead last slot is spawned and moves to index 0, every other element shifts right by one, and the length stays the same. |
| RecyclingPool.GetTwo | space_shooter_part_two.js:128-133 | Errors exactly when the last slot is missing, or when it is dead and the capacity is below 2. If either of the last two slots is alive, nothing changes. Otherwise the former last element is spawned with the first arguments at index 1, the former second-last with the second arguments at index 0, and the rest shift right by two. |
| RecyclingPool.AnimateFrom | space_shooter_part_two.js:139-151 | The reference definition of the `animate` loop from index `i`. Whenever it succeeds it keeps the capacity and the array length. |
| RecyclingPool.Animate | space_shooter_part_two.js:139-151 | The imperative loop computes exactly the reference definition `AnimateFrom(p, 0, b)`, including the error and the early stop at the first dead element. |
| RecyclingPool.RotateRight | space_shooter_part_two.js:119 | `pool.unshift(pool.pop())`: the last element ends up at index 0, every other element moves one slot right, and the length is unchanged. |
| RecyclingPool.MoveToTail | space_shooter_part_two.js:145 | `pool.push(pool.splice(i, 1)[0])`: element `i` ends up in the last slot. The elements before `i` stay put, those after it move one slot left, and the length is unchanged. |
| RecyclingPoolProofs.PrefixCount | space_shooter_part_two.js:112-121 | When the alive elements form a prefix, slot `k` is alive exactly when `k` is less than the number of alive elements. |
| RecyclingPoolProofs.CreateValid | space_shooter_part_two.js:100-110 | A pool filled with walls is valid. It holds no alive element, and its element identities are pairwise distinct. |
| RecyclingPoolProofs.ShipWallPool | space_shooter_part_two.js:227-228 | The ship's pool of capacity 30 is valid and holds 30 distinct, dead walls. |
| RecyclingPoolProofs.CreateOtherKindFails | space_shooter_part_two.js:100-121 | A pool initialised with any kind but "wall" stays empty, so the first `get` raises on slot `maxSize - 1`. |
| RecyclingPoolProofs.GetPermutes | space_shooter_part_two.js:116-121 | `get` neither creates nor discards an element: the multiset of identities is unchanged. |
| RecyclingPoolProofs.GetKeepsValid | space_shooter_part_two.js:116-121 | On a valid pool `get` succeeds, keeps the alive elements a prefix and never puts one object in two slots. |
| RecyclingPoolProofs.GetFillsFreeSlot | space_shooter_part_two.js:116-121 | On a valid pool with a free slot, `get` adds exactly one alive element. The pool is left unchanged exactly when every slot is alive, so the request beyond capacity is a no-op. |
| RecyclingPoolProofs.GetTwoPermutes | space_shooter_part_two.js:128-133 | `getTwo` neither creates nor discards an element. |
| RecyclingPoolProofs.GetTwoKeepsValid | space_shooter_part_two.js:128-133 | On a valid pool of capacity at least 2, `getTwo` succeeds, keeps the alive elements a prefix and never puts one object in two slots. |
| RecyclingPoolProofs.GetTwoAllOrNothing | space_shooter_part_two.js:123-133 | On a valid pool of capacity at least 2, `getTwo` adds exactly two alive elements when two slots are free. Otherwise it changes nothing, so it never adds exactly one. |
| RecyclingPoolProofs.AnimateDefined | space_shooter_part_two.js:139-151 | `animate` on a filled array never raises. |
| RecyclingPoolProofs.AnimatePermutes | space_shooter_part_two.js:139-151 | `animate` neither creates nor discards an element: its splice-and-push only reorders them. |
| RecyclingPoolProofs.AnimateKeepsPrefix | space_shooter_part_two.js:139-151 | If the alive elements form a prefix before `animate`, they still form one afterwards. |
| RecyclingPoolProofs.AnimateKeepsDistinct | space_shooter_part_two.js:139-151 | If no object is in two slots before `animate`, none is afterwards: the splice-and-push only moves elements. |
| RecyclingPoolProofs.AnimateKeepsValid | space_shooter_part_two.js:139-151 | A valid pool stays valid across `animate`. |
| RecyclingPoolProofs.AnimateKeepsDead | space_shooter_part_two.js:141-149 | Every element that was dead before `animate` is still in the pool afterwards, unchanged: it was not drawn, cleared or revived. |
| RecyclingPoolProofs.AnimateRetiresOffScreen | space_shooter_part_two.js:142-146 | An alive element that `animate` draws and that reports leaving the screen ends up cleared, still in the pool, and behind every alive element. |
| RecyclingPoolProofs.AnimateNeverSpawns | space_shooter_part_two.js:139-151 | `animate` never raises the number of alive elements. |
| RecyclingPoolProofs.AnimateAllOnScreen | space_shooter_part_two.js:140-149 | Suppose the alive elements form a prefix and none reports leaving the screen. Then `animate` draws every alive element once, in place, and leaves the dead ones untouched. |
| RecyclingPoolProofs.AnimateKeepsBefore | space_shooter_part_two.js:140-150 | The pass from index `j` on leaves every slot before `j` exactly as it was. |
| RecyclingPoolProofs.AnimateSkipsAfterSplice | space_shooter_part_two.js:140-146 | Whenever slot `i` is drawn and reports leaving the screen, the pass continues at index `i + 1` of the spliced array. Slot `i` of that array holds the element that followed. At the end of the pass that element is still in slot `i`, unchanged, so it was not drawn on this pass. |
| RecyclingPoolProofs.AnimateSkipsSlidElement | space_shooter_part_two.js:140-146 | Take three alive elements that all report leaving the screen. The first and third are cleared and moved to the tail. The second slides into slot 0 after the first splice, is never drawn and stays alive. |
| RecyclingPoolProofs.CapacityTwoScenario | space_shooter_part_two.js:116-121 | In a capacity-2 pool, the first `get` leaves one alive element at (5, 5) and the second leaves two. The third request is dropped and leaves the pool unchanged. |
| BackgroundPan.Start | space_shooter_part_two.js:163-164 | `new Background()` with `init(0, 0)` (line 298): `x` and `y` are 0 and the speed is 1. This start is inside the window `(-W, 0]` exactly when the canvas width is positive. |
| BackgroundPan.Draw | space_shooter_part_two.js:167-178 | A pan moves only `x`: `y`, the speed and the canvas width are unchanged. |
| BackgroundPan.DrawStaysInWindow | space_shooter_part_two.js:169-177 | With a speed of 0 or more, a pan keeps `x` in `(-canvasWidth, 0]`. |
| BackgroundPan.PanFirstLap | space_shooter_part_two.js:163-178 | From `x = 0` with speed 1, `x` is `-n` after `n < W` frames and exactly 0 after `W` frames. It is not back at 0 at any frame in between. |
| BackgroundPan.PanWraps | space_shooter_part_two.js:163-178 | From `x = 0` with speed 1, `x` stays in `(-W, 0]` on every frame, and the motion repeats with period `W`. |
| ShipMotion.Move | space_shooter_part_two.js:239-252 | A step changes only `y`, the velocity and the frame counter, and raises the counter by one. |
| ShipMotion.MoveIsEulerStep | space_shooter_part_two.js:248-250 | The position advances by the velocity as it stood before `gravity * delta` was added. Without the space bar, the velocity gains exactly `gravity * delta`. |
| ShipMotion.ImpulseOverrides | space_shooter_part_two.js:243-250 | With the space bar held, the step does not depend on the prior velocity. The ship rises by exactly 6 and the new velocity is `-6 + gravity * delta`. |
| ShipMotion.UnmoveMove | space_shooter_part_two.js:239-252 | Running the step backwards recovers the state before it, with the velocity replaced by -6 when the space bar was held. |
| ShipMotion.FirstStepFromRest | space_shooter_part_two.js:220-252 | A new ship has gravity 2, velocity 1 and timestep 0.1. With no key held, its first step moves it down by 1 and leaves its velocity at 1.2. |
| ShipMotion.OnlySpaceMatters | space_shooter_part_two.js:243 | Pressing or releasing any mapped key other than space leaves the ship's step unchanged. |
| KeyInput.KeyCodesInverse | space_shooter_part_two.js:338-344 | The key table is a bijection between the codes 32, 37, 38, 39, 40 and the five actions. |
| KeyInput.InitialStatus | space_shooter_part_two.js:350-353 | Every one of the five actions has an entry, and every entry is released. |
| KeyInput.Code | space_shooter_part_two.js:363 | The code read from an event is `keyCode` whenever that is non-zero, and `charCode` otherwise. It is 0 only when both are 0. |
| KeyInput.KeyDown | space_shooter_part_two.js:360-368 | A mapped key code, `keyCode` or `charCode` when `keyCode` is 0, sets its action to held. Every other entry is unchanged, and an unmapped code changes nothing. |
| KeyInput.KeyUp | space_shooter_part_two.js:375-381 | A mapped key code sets its action to released. Every other entry is unchanged, and an unmapped code changes nothing. |
| KeyInput.CharCodeFallback | space_shooter_part_two.js:361-363 | An event with `keyCode` 0 acts exactly like one that carries its `charCode` as `keyCode`. |
| KeyInput.PressThenRelease | space_shooter_part_two.js:360-381 | Releasing a key restores the status from before pressing it, when its action was released. Pressing the same key twice is the same as pressing it once. |
| KeyInput.ReplayIsLastPress | space_shooter_part_two.js:350-381 | After any sequence of key events from the initial status, every action has an entry. An action is held exactly when the latest event for its key was a key-down. |

## Left out

- Canvas drawing (`drawImage`, `clearRect`) and the wiring of contexts and canvas sizes through prototypes: these are side effects on browser objects. The element's `draw` is a parameter that returns the element's new state and an off-screen flag.
- `Game.init`'s canvas-support test, the `init()`/`start()` bootstrap and the image-load counter: these are browser and asset-loading plumbing. `imageRepository` counts 2 images but sets 4 sources.
- The `animate()` frame loop and the `requestAnimFrame` shim: these are scheduling with no state of their own beyond call order.
- The concrete `Wall` class: `topwall`/`botwall` are assigned as globals but read through `this`. It never sets `alive`, has no `clear`, and its `draw` never reports leaving the screen. The pool is modelled over an abstract element instead.
- The ship's pool is built but never used: the only `get` call is commented out. The model builds it (`ShipWallPool`) and does not wire it into the frame.
- RecyclingPool.AnimateFrom: its own contract states only that the capacity and length are kept. What `animate` does is stated by the lemmas about it: `AnimatePermutes`, `AnimateKeepsPrefix`, `AnimateKeepsDead`, `AnimateRetiresOffScreen`, `AnimateNeverSpawns` and `AnimateAllOnScreen`.
- BackgroundPan.Draw: its own contract states only what a pan leaves unchanged. Where `x` goes is stated by `DrawStaysInWindow`, `PanFirstLap` and `PanWraps`.
- ShipMotion.Move: its own contract states only which fields a step changes. The step itself is stated by `MoveIsEulerStep`, `ImpulseOverrides` and `UnmoveMove`.
- RecyclingPool.Create: models `new Pool(maxSize)` followed by one `init(kind)`. Calling `init` a second time on an already filled pool is not modelled.
- Accumulated floating-point values, such as the velocity after `k` frames, and the ship's start position from the canvas size are left out. These are IEEE-754 numerics; the ship is modelled over exact reals.
- The ship's `speed`, the unused `jumping` variable and `Drawable`'s default fields are left out: nothing in the core reads them.
- `preventDefault` and the DOM event objects are left out. Only the two codes an event carries, and the resulting status update, are modelled.
