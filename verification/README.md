# Snowfall core: rectangle fill and particle pool

This project is a Dafny model of the integer core of a small snowfall renderer. Each frame, the host calls `UpdateAndRender` with three things: a persistent memory block, a 32-bit-per-pixel frame buffer, and the elapsed time. The call does these things:

- It sets up a particle pool once.
- It clears the frame to a background colour with a clipped rectangle fill.
- On even ticks it spawns a particle from a free list threaded through the pool's slots.
- It counts down and draws every slot whose lifetime is not negative, including slots never spawned into, which start at 0.

The model has five modules:

- `Math` (`math.dfy`): `Min`.
- `Pixels` (`color.dfy`): the packed argb word and its channel view, `Pack`/`Unpack`, which are proved mutually inverse.
- `Raster` (`raster.dfy`): the frame buffer; `GetPixel`'s byte addressing; the clip; the fill loop `FillRect`; the per-pixel overwrite/composite rule; `ClearBackground`; `RenderGradient`.
- `Pool` (`pool.dfy`): the slot array and its `next` links, with null written as -1; setup; `Acquire`. Following the links gives a list view, `FreeList`, and `Acquire` is proved to pop it.
- `Simulation` (`simulation.dfy`): one call of `UpdateAndRender` on the persistent state (`Step`), runs of calls, and the lifecycle of a particle.

How things outside the core are modelled:

- **Blend.** `Composite` does floating-point blending, so it is a function-valued parameter (`Compositor`) and is never given a body.
- **Random numbers.** `Random()` becomes an arbitrary natural number supplied per call.
- **Memory block.** The host's block is taken to be zero-filled (`ZeroState`). Every lifetime is 0, every link is null and the head is null.
- **Fill bounds.** `FillRect` receives integer bounds that are already rounded.

## Model

| member | source | states |
|---|---|---|
| `Pixels.UnpackPack` | snow.cpp:54-62 | Reading the alpha, red, green and blue bytes back out of a packed word (shift right by 24/16/8/0, keep the low byte) gives the channels that were packed. |
| `Pixels.PackUnpack` | snow.cpp:144-146 | Reading a pixel word as a colour and writing that colour back reproduces the word, for every 32-bit value. |
| `Raster.GetPixelInBounds` | snow.cpp:22-26 | For `0 <= x < width`, `0 <= y < height` and `pitch >= width*pixelBytes`, the offset `x*pixelBytes + y*pitch` is non-negative. The offset plus `pixelBytes` is at most `height*pitch`. |
| `Raster.GetPixelOrdered` | snow.cpp:22-26 | Pixel byte ranges never overlap and are laid out in row-major order: an earlier pixel ends at or before a later one starts. |
| `Raster.WalkOffset` | snow.cpp:134-149 | FillRect's pointer walk reaches the byte `GetPixel(x, y)` for every visited pixel. The walk starts at `GetPixel(minX, minY)`, adds `pitch` per row and steps one 4-byte `uint32_t` per column. This holds when `pixelBytes` is 4. |
| `Raster.FillStaysInBuffer` | snow.cpp:129-149 | For every pixel of the clipped rectangle, the four bytes the walk reaches from the clipped corner lie inside the `height*pitch` bytes of the bitmap. The fill never writes outside the buffer. |
| `Raster.Clip` | snow.cpp:129-132 | `minX` and `minY` are at least 0, and `maxX` and `maxY` are at most the width and height. A column is in the clamped span exactly when it is both in the requested span and on the buffer. The same holds for rows. |
| `Raster.FillRect` | snow.cpp:129-150 | Each pixel in the intersection of the rectangle with the buffer becomes the per-pixel rule applied to its own previous value, so it is written exactly once. Every other pixel keeps its value. The buffer's shape is unchanged. If the clamped rectangle is empty on either axis, the buffer is returned unchanged. |
| `Raster.ShadeAsWritten` | snow.cpp:138-147 | The per-pixel rule as written: read back as a colour, the new pixel is the source itself when its alpha byte is 1. Otherwise it is the blend of the source over the pixel's old colour. |
| `Raster.Shade` | snow.cpp:138-147 | The corrected per-pixel rule: read back as a colour, the new pixel is the source itself when its alpha byte is 255. Otherwise it is the blend of the source over the pixel's old colour. |
| `Raster.FastPathVisibleAsWritten` | snow.cpp:139-147 | As written, the overwrite path is taken when the alpha byte is 1. Take a blend where an opaque source covers the destination and any other source leaves it showing. Drawing white with alpha 1 over opaque black then yields white, where compositing yields black. |
| `Raster.FastPathInvisible` | snow.cpp:138-147 | With the overwrite test at alpha 255, the fast path gives the same pixel as compositing for every source and destination, whenever the blend lets an opaque source cover. An opaque source always yields its own colour. |
| `Raster.ClearBackground` | snow.cpp:234-236 | Under the corrected 255 test, filling the whole buffer with the background colour (alpha 255, red 3, green 5, blue 13) leaves every pixel exactly that colour, whatever the pixel held before. |
| `Raster.ClearBackgroundAsWritten` | snow.cpp:234-236 | Under the `a == 1` test as written, the opaque background is composited: every pixel becomes the blend of the background over its old colour. When the blend leaves the background as it is over every colour (as every blend in which an opaque source covers does), every pixel ends up the background colour. |
| `Raster.RenderGradient` | snow.cpp:93-106 | Every pixel `(x, y)` of the buffer is rewritten. Its channels are alpha 0, red `offset mod 256`, green `(y+offset) mod 256` and blue `(x+offset) mod 256`. |
| `Pool.Initialize` | snow.cpp:223-231 | Setup links slot `i` to `i+1` for every slot but the last and points the head at slot 0. It raises the flag and leaves lifetimes, positions and the last slot's link untouched. If that last link is null, the result is a well-formed free list. |
| `Pool.Acquire` | snow.cpp:242-245 | An empty head yields nothing and leaves the pool unchanged. Otherwise the head slot is returned and the head moves to its link, with no slot's contents changed. A well-formed free list stays well formed, and its first free slot moves forward by one. |
| `Pool.FreeListIsSuffix` | snow.cpp:224-229 | Following the links from the head of a well-formed pool visits exactly the slots from the head to the last slot, in order. The list is empty exactly when the head is null. |
| `Pool.AcquirePops` | snow.cpp:242-245 | Acquire fails exactly when the free list is empty. Otherwise it returns the list's first slot and leaves the rest of the list. |
| `Pool.AcquireNFrom` | snow.cpp:241-247 | `k` acquisitions in a row return the next `k` free slots in index order, or all remaining ones if fewer are left. Once every slot is taken the head is null. |
| `Pool.AcquireAllAfterInitialize` | snow.cpp:219-246 | After setup of a zero-filled block of `n` slots, `n` acquisitions return `0, 1, …, n-1`, strictly increasing and so distinct. The next acquisition finds the pool exhausted. |
| `Simulation.Skipped` | snow.cpp:258 | The skip test `lifetime != 0 && lifetime < 1` holds exactly when the lifetime is negative. |
| `Simulation.InitParticle` | snow.cpp:177-187 | A spawned particle gets a column in `[0, width)` and lifetime 200, and keeps its link. |
| `Simulation.AnimateParticle` | snow.cpp:198-203 | One animation step lowers the lifetime by exactly one and keeps the column and the link. |
| `Simulation.Begin` | snow.cpp:219-232 | After the setup phase the flag is up, the head is valid, and the tick counter is unchanged. Setup runs only while the flag is down: a state whose flag is up passes through unchanged, and one whose flag is down gets the setup of `Pool.Initialize`. |
| `Simulation.Step` | snow.cpp:216-267 | One call raises the flag and increases `ticks` by exactly 1. It spawns only on even ticks. Once set up, it never rewrites a link, and the head stays put when nothing spawns. The spawned slot ends at lifetime 199. Every other slot with a negative lifetime is unchanged, and every other slot (including never-spawned ones at 0) loses exactly 1. |
| `Simulation.FirstStep` | snow.cpp:219-267 | The first call on a zero-filled block spawns into slot 0 and establishes the invariant. It leaves slot 0 at 199, every other slot at -1, and slot 1 as the first free slot. |
| `Simulation.StepKeepsInv` | snow.cpp:241-267 | Every call preserves the invariant: flag up, free list well formed, and every lifetime in `[-1, 200]`, so the decrement never overflows. |
| `Simulation.StepPopsFreeList` | snow.cpp:241-251 | A call spawns exactly when the tick is even and the free list is non-empty. It then takes the first free slot and leaves the rest of the list. Otherwise the list is unchanged, and no slot is ever returned to it. |
| `Simulation.StepTakesFirstFree` | snow.cpp:241-247 | A call that spawns takes the first free slot and moves the first free slot on by exactly one. A call that does not spawn leaves the head where it was. An exhausted pool never spawns. |
| `Simulation.RunHeadMovesForward` | snow.cpp:241-247 | Over any run of calls the first free slot never moves back, because no slot is returned to the list. An exhausted pool stays exhausted. |
| `Simulation.RunSpawnsConsecutive` | snow.cpp:241-247 | Over any run of calls, the spawned slots are exactly the consecutive slots from the first free slot at the start to the first free slot at the end, so each is spawned at most once. |
| `Simulation.EvenTicksOfPairs` | snow.cpp:241 | Any `2m` consecutive calls include exactly `m` even ticks, whichever parity the first one has. |
| `Simulation.TakenCapped` | snow.cpp:241-247 | The call-by-call reference (take one slot on each even tick unless the pool size is reached) equals its closed form: the start plus the number of even ticks, capped at the pool size. |
| `Simulation.RunAdvances` | snow.cpp:241-251 | Over any run, the first free slot moves exactly as the call-by-call reference says. The tick parity alternates from call to call. |
| `Simulation.RunTakesOnEvenTicks` | snow.cpp:241-251 | After any run, the first free slot has advanced by the number of even ticks in the run, or to the end of the pool if that comes first. |
| `Simulation.TakeRestOfPool` | snow.cpp:241-251 | Starting on an odd tick with slot 1 the first free slot, the next `2n-2` calls spawn into slots `1` to `n-1` in order and leave the pool exhausted. |
| `Simulation.FreshPoolExhaustedAfter2nMinus1Calls` | snow.cpp:216-251 | From a zero-filled block of `n` slots, the first call spawns into slot 0. The `2n-2` calls after it spawn into slots `1` to `n-1` in order, and the pool is then exhausted. |
| `Simulation.AnimatedInStep` | snow.cpp:254-263 | A slot counts as animated and drawn by a call exactly when that call lowers its lifetime by one from what the spawn phase left. |
| `Simulation.TakenSlotCountsDown` | snow.cpp:254-265 | A slot already taken from the free list with lifetime `L` is animated on exactly `min(k, L+1)` of the next `k` calls. |
| `Simulation.SpawnedParticleLives201Ticks` | snow.cpp:186-265 | A spawned particle is animated and drawn on exactly `min(k, 201)` of the `k` calls starting with its spawn (lifetimes 200 down to 0). After that its slot is skipped for good. |

## Findings

| source | as written | input that shows it | evidently intended | confidence | as-written member | corrected member |
|---|---|---|---|---|---|---|
| snow.cpp:139 | The overwrite fast path is taken when `srcColor.a == 1`. Colour channels are bytes 0..255, so alpha 1 means 1/255, nearly transparent. A fully opaque colour (255), such as the background, goes through `Composite` instead. | A white source with alpha byte 1 drawn over an opaque black pixel. As written the pixel becomes white. Compositing by alpha would leave it (almost) black. | Overwrite only when the source is fully opaque, `srcColor.a == 255`, as the "Overwrite" comment and the normalized alpha of 1.0 for the background suggest. | medium, not executed | `Raster.FastPathVisibleAsWritten` (rule `Raster.ShadeAsWritten`) | `Raster.FastPathInvisible` (rule `Raster.Shade`, used by `Raster.ClearBackground`) |

`FillRect` takes the per-pixel rule as a parameter, so the loop and its frame properties hold for both rules. The as-written rule is `ShadeAsWritten` and the corrected rule is `Shade`. The background clear uses the corrected rule. Under the as-written rule, every background pixel is instead `Composite(background, previous pixel)` (`ClearBackgroundAsWritten`). Whether that equals the background depends on blend code that is not part of this model.

## Left out

- `GetColor`, `GetDoubleColor` and `Composite`'s arithmetic (snow.cpp:36-82) use floating point and the rounding and `Lerp` helpers of math.cpp. math.cpp is not part of this model. The blend is a parameter and the background colour is the constant 255/3/5/13. That constant is the hand-rounded result of `GetColor({1, 0.01, 0.02, 0.05})`. The exact round trip between packed and normalized colours is therefore not modelled.
- The rounding of `FillRect`'s real-valued bounds (`RoundDoubleToInt32`, snow.cpp:124-127) is floating point. The model takes integer bounds.
- `DrawParticle` (snow.cpp:162-166) computes float bounds from position and radius. Particle drawing is not part of the state model. `Simulation.AnimatedIn` records which slots are drawn on each call.
- Vertical position, radius and colour of a particle are floating point. The `160 * secondsElapsed` motion is floating point too. `secondsElapsed` is used only for that motion, so it does not appear in the model. That is also why the lifetime decrement cannot depend on it.
- Random seeding (snow.cpp:220-221), `Random()` and `RandomPercent()` use global state from math.cpp. Each call takes an arbitrary number in place of `Random()`, and the alpha draw is left out. `Random()` is assumed to return an unsigned value, so `Random() % width` lies in `[0, width)`. The source divides by the width only when a call spawns (snow.cpp:180).
- `Assert(sizeof(State) < memory->size)` and the reinterpretation of the memory block as a `State` (snow.cpp:217-218) are memory plumbing. The state is a typed value. The pool capacity `n` is a parameter, because the array length is declared in snow.h, which is not part of this model.
- `RenderGradient` is only called from a commented-out line (snow.cpp:237). It is modelled on its own and is not part of `Step`.
- `Raster.RenderGradient`: does not model signed overflow of `y + offset` or `x + offset` near the `int` limit. Integers are unbounded here.
- `Simulation.Step`: requires `width > 0` on every call, where the source needs it only on a call that spawns. A zero-width frame on an odd tick, or after the pool is exhausted, is accepted by the source but not by the model. The run lemmas carry the same requirement.
- `Raster.ClearBackground`: states the clear under the corrected 255 test only. As written, the background is composited, and `Raster.ClearBackgroundAsWritten` states that the result is the background when the blend leaves the background as it is over every colour, for instance when an opaque source covers. The blend itself is not part of this model.
- `Simulation.Step`: `ticks` is unbounded, so the overflow of the C counter after 2^31 or 2^64 calls is not modelled.
- `Pool.Initialize`: the descending loop is modelled by its result. This is possible because each iteration writes a different slot.
- The last slot's link is whatever the block held, since setup never writes it. The free-list properties are proved only for a block where that link is null, as a zero-filled block gives.
