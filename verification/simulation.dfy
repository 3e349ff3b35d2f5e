/** The per-frame state machine of UpdateAndRender, on the persistent state.

One call (`Step`) does, in order: one-time setup while the initialised
flag is down; on even ticks, a spawn from the free list; for every slot
whose lifetime has not gone negative, one animation step (lifetime minus
one); then the tick counter goes up by one. Drawing is left to the
rasterizer (see Raster) and is not part of the state.
 */
module Simulation {
  import opened Pool
  import opened Math

  /** The slot loop's skip test as written (`lifetime != 0 && lifetime < 1`):
      it holds exactly for negative lifetimes. */
  function Skipped(lifetime: int): (b: bool)
    ensures b <==> lifetime < 0
  {
    lifetime != 0 && lifetime < 1
  }

  /** Gives a slot a new particle: a column drawn from `rand` that lies on
      the buffer, and a full lifetime. The link is left as it was. */
  function InitParticle(p: Particle, width: int, rand: nat): (q: Particle)
    requires 0 < width
    ensures 0 <= q.x < width
    ensures q.lifetime == SpawnLifetime && q.next == p.next
  {
    p.(x := rand % width, lifetime := SpawnLifetime)
  }

  /** One animation step. The vertical move is scaled by the elapsed time,
      but the lifetime drops by exactly one whatever that time is. */
  function AnimateParticle(p: Particle): (q: Particle)
    ensures q.lifetime == p.lifetime - 1
    ensures q.x == p.x && q.next == p.next
  {
    p.(lifetime := p.lifetime - 1)
  }

  /** Setup, done only while the flag is down: once the flag is up, the
      state passes through untouched, so setup never runs twice. */
  function Begin(s: State): (t: State)
    requires 0 < |s.particles|
    requires s.initialized ==> s.HeadOk()
    ensures t.initialized && t.HeadOk() && t.ticks == s.ticks
    ensures s.initialized ==> t == s
    ensures !s.initialized ==> t == Initialize(s)
  {
    if !s.initialized then Initialize(s) else s
  }

  /** Spawning is attempted only on even ticks. */
  predicate SpawnTick(ticks: nat)
  {
    ticks % 2 == 0
  }

  /** The spawn of one call: on an even tick, acquire a slot and give it a
      new particle. */
  function SpawnPhase(s: State, width: int, rand: nat): State
    requires s.HeadOk() && 0 < width
  {
    if SpawnTick(s.ticks) then
      match Acquire(s)
      case (Some(p), t) => t.(particles := t.particles[p := InitParticle(t.particles[p], width, rand)])
      case (None, t) => t
    else s
  }

  /** The slot loop: skipped slots stay as they are, every other slot is
      animated. */
  function AnimatePhase(s: State): State
  {
    var n := |s.particles|;
    s.(particles := seq(n, i requires 0 <= i < n =>
                          if Skipped(s.particles[i].lifetime) then s.particles[i]
                          else AnimateParticle(s.particles[i])))
  }

  /** The slot a call spawns into, if any. */
  function Spawned(s: State): Option<int>
    requires 0 < |s.particles|
    requires s.initialized ==> s.HeadOk()
  {
    var b := Begin(s);
    if SpawnTick(b.ticks) then Acquire(b).0 else None
  }

  /** One call of UpdateAndRender on the persistent state. */
  function Step(s: State, width: int, rand: nat): (t: State)
    requires 0 < |s.particles| && 0 < width
    requires s.initialized ==> s.HeadOk()
    ensures t.initialized && |t.particles| == |s.particles|
    ensures t.ticks == s.ticks + 1
    ensures Spawned(s).Some? ==> SpawnTick(s.ticks)
    ensures s.initialized ==> forall i :: 0 <= i < |s.particles| ==> t.particles[i].next == s.particles[i].next
    ensures s.initialized && Spawned(s).None? ==> t.head == s.head
    ensures forall i :: 0 <= i < |s.particles| ==>
              t.particles[i].lifetime ==
                if Spawned(s) == Some(i) then SpawnLifetime - 1
                else if s.particles[i].lifetime < 0 then s.particles[i].lifetime
                else s.particles[i].lifetime - 1
  {
    var t := AnimatePhase(SpawnPhase(Begin(s), width, rand));
    t.(ticks := t.ticks + 1)
  }

  /** The invariant of the running simulation: set up, free list in the
      shape setup gave it, and every lifetime between -1 and a full one
      (so the decrement never leaves an `int`). */
  predicate Inv(s: State)
  {
    && s.initialized
    && s.Linked()
    && forall i :: 0 <= i < |s.particles| ==> -1 <= s.particles[i].lifetime <= SpawnLifetime
  }

  /** The first call on a zero-filled block of `n` slots sets the pool up,
      spawns into slot 0, counts that particle down once, and counts every
      other (never spawned) slot down from 0 to -1. */
  lemma FirstStep(n: nat, width: int, rand: nat)
    requires 0 < n && 0 < width
    ensures Spawned(ZeroState(n)) == Some(0)
    ensures Inv(Step(ZeroState(n), width, rand))
    ensures Step(ZeroState(n), width, rand).FreeFrom() == 1
    ensures Step(ZeroState(n), width, rand).particles[0].lifetime == SpawnLifetime - 1
    ensures forall i :: 0 < i < n ==> Step(ZeroState(n), width, rand).particles[i].lifetime == -1
  {
  }

  /** Every call keeps the invariant. */
  lemma StepKeepsInv(s: State, width: int, rand: nat)
    requires Inv(s) && 0 < width
    ensures Inv(Step(s, width, rand))
  {
  }

  /** A call acts on the free list as at most one pop: it spawns exactly on
      an even tick with a non-empty list, takes the list's first slot, and
      otherwise leaves the list alone. No slot is ever put back. */
  lemma StepPopsFreeList(s: State, width: int, rand: nat)
    requires Inv(s) && 0 < width
    ensures Spawned(s).Some? <==> SpawnTick(s.ticks) && FreeList(s) != []
    ensures Spawned(s).Some? ==>
              Spawned(s).value == FreeList(s)[0] && FreeList(Step(s, width, rand)) == FreeList(s)[1..]
    ensures Spawned(s).None? ==> FreeList(Step(s, width, rand)) == FreeList(s)
  {
    var t := Step(s, width, rand);
    StepKeepsInv(s, width, rand);
    AcquirePops(s);
    if Spawned(s).Some? {
      assert t.head == Acquire(s).1.head;
      FreeListIsSuffix(t);
      FreeListIsSuffix(Acquire(s).1);
    } else {
      FreeListIsSuffix(t);
      FreeListIsSuffix(s);
    }
  }

  /** `|rands|` calls in a row, the i-th drawing its column from
      `rands[i]`. */
  function Run(s: State, width: int, rands: seq<nat>): (t: State)
    requires Inv(s) && 0 < width
    ensures Inv(t) && t.ticks == s.ticks + |rands| && |t.particles| == |s.particles|
    decreases |rands|
  {
    if rands == [] then s
    else
      StepKeepsInv(s, width, rands[0]);
      Run(Step(s, width, rands[0]), width, rands[1..])
  }

  /** A non-empty run is its first call followed by the rest of the run. */
  lemma RunUnfold(s: State, width: int, rands: seq<nat>)
    requires Inv(s) && 0 < width && rands != []
    ensures Inv(Step(s, width, rands[0]))
    ensures Run(s, width, rands) == Run(Step(s, width, rands[0]), width, rands[1..])
  {
    StepKeepsInv(s, width, rands[0]);
  }

  /** The slots spawned during a run, in order. */
  function Spawns(s: State, width: int, rands: seq<nat>): seq<int>
    requires Inv(s) && 0 < width
    decreases |rands|
  {
    if rands == [] then []
    else
      StepKeepsInv(s, width, rands[0]);
      var now := if Spawned(s).Some? then [Spawned(s).value] else [];
      now + Spawns(Step(s, width, rands[0]), width, rands[1..])
  }

  /** What one call does to the head of the free list: a spawn takes the
      first free slot and moves past it; otherwise the head stays, and an
      exhausted pool never spawns. */
  lemma StepTakesFirstFree(s: State, width: int, rand: nat)
    requires Inv(s) && 0 < width
    ensures Spawned(s).Some? ==>
              Spawned(s).value == s.FreeFrom() && Step(s, width, rand).FreeFrom() == s.FreeFrom() + 1
    ensures Spawned(s).None? ==> Step(s, width, rand).head == s.head
    ensures s.head == Null ==> Spawned(s).None?
  {
    StepKeepsInv(s, width, rand);
    StepPopsFreeList(s, width, rand);
    FreeListIsSuffix(s);
    FreeListIsSuffix(Step(s, width, rand));
  }

  /** Over any run the head of the free list only moves forward, and a
      pool that is exhausted stays exhausted. */
  lemma {:induction false} RunHeadMovesForward(s: State, width: int, rands: seq<nat>)
    requires Inv(s) && 0 < width
    ensures s.FreeFrom() <= Run(s, width, rands).FreeFrom()
    ensures s.head == Null ==> Run(s, width, rands).head == Null
    decreases |rands|
  {
    if rands != [] {
      StepTakesFirstFree(s, width, rands[0]);
      RunUnfold(s, width, rands);
      RunHeadMovesForward(Step(s, width, rands[0]), width, rands[1..]);
    }
  }

  /** Putting the slot `a` in front of the run `a + 1 .. b`, or nothing in
      front of the run `a .. b`, gives the run `a .. b`. */
  lemma PrependRange(whole: seq<int>, now: seq<int>, rest: seq<int>, a: int, a1: int, b: int)
    requires whole == now + rest && rest == Range(a1, b) && a1 <= b
    requires (now == [a] && a1 == a + 1) || (now == [] && a1 == a)
    ensures whole == Range(a, b)
  {
    if now == [] {
      assert whole == rest;
    }
  }

  /** Over any run the spawned slots are consecutive: the run takes the
      free slots in index order, from the first free slot at its start to
      the first free slot at its end, each at most once. */
  lemma {:induction false} RunSpawnsConsecutive(s: State, width: int, rands: seq<nat>)
    requires Inv(s) && 0 < width
    ensures Spawns(s, width, rands) == Range(s.FreeFrom(), Run(s, width, rands).FreeFrom())
    decreases |rands|
  {
    if rands != [] {
      StepTakesFirstFree(s, width, rands[0]);
      RunUnfold(s, width, rands);
      RunHeadMovesForward(Step(s, width, rands[0]), width, rands[1..]);
      RunSpawnsConsecutive(Step(s, width, rands[0]), width, rands[1..]);
      PrependRange(Spawns(s, width, rands), if Spawned(s).Some? then [Spawned(s).value] else [],
                   Spawns(Step(s, width, rands[0]), width, rands[1..]),
                   s.FreeFrom(), Step(s, width, rands[0]).FreeFrom(),
                   Run(Step(s, width, rands[0]), width, rands[1..]).FreeFrom());
    }
  }

  /** Whether slot `i` is animated (and drawn) during the call on `s`. */
  function AnimatedIn(s: State, width: int, rand: nat, i: int): bool
    requires 0 < |s.particles| && 0 < width && 0 <= i < |s.particles|
    requires s.initialized ==> s.HeadOk()
  {
    var b := SpawnPhase(Begin(s), width, rand);
    !Skipped(b.particles[i].lifetime)
  }

  /** Slot `i` is animated by a call exactly when that call lowers its
      lifetime by one from what the spawn phase left. */
  lemma AnimatedInStep(s: State, width: int, rand: nat, i: int)
    requires 0 < |s.particles| && 0 < width && 0 <= i < |s.particles|
    requires s.initialized ==> s.HeadOk()
    ensures AnimatedIn(s, width, rand, i) <==>
              Step(s, width, rand).particles[i].lifetime == SpawnPhase(Begin(s), width, rand).particles[i].lifetime - 1
  {
  }

  /** The number of calls of a run during which slot `i` is animated. */
  function AnimatedCount(s: State, width: int, rands: seq<nat>, i: int): nat
    requires Inv(s) && 0 < width && 0 <= i < |s.particles|
    decreases |rands|
  {
    if rands == [] then 0
    else
      StepKeepsInv(s, width, rands[0]);
      (if AnimatedIn(s, width, rands[0], i) then 1 else 0)
        + AnimatedCount(Step(s, width, rands[0]), width, rands[1..], i)
  }

  /** A slot already taken off the free list counts down from lifetime
      `L` and is animated on the next `L + 1` calls, then never again. */
  lemma {:induction false} TakenSlotCountsDown(s: State, width: int, rands: seq<nat>, i: int)
    requires Inv(s) && 0 < width && 0 <= i < s.FreeFrom()
    ensures AnimatedCount(s, width, rands, i) == Min(|rands|, s.particles[i].lifetime + 1)
    decreases |rands|
  {
    if rands != [] {
      var t := Step(s, width, rands[0]);
      StepKeepsInv(s, width, rands[0]);
      StepPopsFreeList(s, width, rands[0]);
      FreeListIsSuffix(s);
      FreeListIsSuffix(t);
      assert Spawned(s) != Some(i);
      assert s.FreeFrom() <= t.FreeFrom();
      TakenSlotCountsDown(t, width, rands[1..], i);
    }
  }

  /** A particle is animated and drawn on exactly 201 calls: the call that
      spawns it (lifetime 200) and the next 200 (lifetimes 199 down to 0);
      from then on its slot is skipped for good. */
  lemma SpawnedParticleLives201Ticks(s: State, width: int, rands: seq<nat>, p: int)
    requires Inv(s) && 0 < width && rands != []
    requires Spawned(s) == Some(p)
    ensures 0 <= p < |s.particles|
    ensures AnimatedCount(s, width, rands, p) == Min(|rands|, SpawnLifetime + 1)
  {
    var t := Step(s, width, rands[0]);
    StepKeepsInv(s, width, rands[0]);
    StepPopsFreeList(s, width, rands[0]);
    FreeListIsSuffix(s);
    FreeListIsSuffix(t);
    TakenSlotCountsDown(t, width, rands[1..], p);
  }

  /** The number of calls among `k` consecutive ones that attempt a
      spawn, when the first of them falls on an even tick exactly if
      `even`: the parity alternates from call to call. */
  function EvenTicks(even: bool, k: nat): nat
    decreases k
  {
    if k == 0 then 0 else (if even then 1 else 0) + EvenTicks(!even, k - 1)
  }

  /** Any `2m` consecutive calls include exactly `m` even ticks. */
  lemma {:induction false} EvenTicksOfPairs(even: bool, m: nat)
    ensures EvenTicks(even, 2 * m) == m
    decreases m
  {
    if m > 0 {
      EvenTicksOfPairs(even, m - 1);
      assert EvenTicks(even, 2 * m) == (if even then 1 else 0) + EvenTicks(!even, 2 * m - 1);
      assert EvenTicks(!even, 2 * m - 1) == (if even then 0 else 1) + EvenTicks(even, 2 * (m - 1));
    }
  }

  /** Reference for the free-list head over a run, one call at a time: from
      first free slot `a`, each of `k` calls takes a slot on an even tick
      unless `n` (the pool size) is reached. */
  function Taken(a: int, even: bool, k: nat, n: int): int
    decreases k
  {
    if k == 0 then a else Taken(Min(a + (if even then 1 else 0), n), !even, k - 1, n)
  }

  /** The call-by-call reference in closed form: the head advances by the
      number of even ticks, capped at the pool size. */
  lemma {:induction false} TakenCapped(a: int, even: bool, k: nat, n: int)
    requires a <= n
    ensures Taken(a, even, k, n) == Min(a + EvenTicks(even, k), n)
    decreases k
  {
    if k > 0 {
      TakenCapped(Min(a + (if even then 1 else 0), n), !even, k - 1, n);
    }
  }

  /** One call moves the first free slot on by one on an even tick, unless
      the pool is already exhausted; the next call falls on the other
      parity. */
  lemma StepAdvances(s: State, width: int, rand: nat)
    requires Inv(s) && 0 < width
    ensures Step(s, width, rand).FreeFrom() == Min(s.FreeFrom() + (if SpawnTick(s.ticks) then 1 else 0), |s.particles|)
    ensures SpawnTick(Step(s, width, rand).ticks) == !SpawnTick(s.ticks)
  {
    StepTakesFirstFree(s, width, rand);
    StepPopsFreeList(s, width, rand);
    FreeListIsSuffix(s);
  }

  /** A run moves the first free slot exactly as the call-by-call
      reference does. */
  lemma {:induction false} RunAdvances(s: State, width: int, rands: seq<nat>)
    requires Inv(s) && 0 < width
    ensures Run(s, width, rands).FreeFrom() == Taken(s.FreeFrom(), SpawnTick(s.ticks), |rands|, |s.particles|)
    decreases |rands|
  {
    if rands != [] {
      StepAdvances(s, width, rands[0]);
      RunUnfold(s, width, rands);
      RunAdvances(Step(s, width, rands[0]), width, rands[1..]);
    }
  }

  /** A run takes one free slot on every even tick until the pool runs out:
      after it, the first free slot has advanced by the number of even
      ticks in the run, or to the end of the pool. */
  lemma RunTakesOnEvenTicks(s: State, width: int, rands: seq<nat>)
    requires Inv(s) && 0 < width
    ensures Run(s, width, rands).FreeFrom() == Min(s.FreeFrom() + EvenTicks(SpawnTick(s.ticks), |rands|), |s.particles|)
  {
    assert s.FreeFrom() <= |s.particles| by {
      assert s.HeadOk();
    }
    TakenCapped(s.FreeFrom(), SpawnTick(s.ticks), |rands|, |s.particles|);
    RunAdvances(s, width, rands);
  }

  /** A pool whose first free slot is its size has a null head. */
  lemma ExhaustedHead(s: State, n: int)
    requires s.HeadOk() && |s.particles| == n && s.FreeFrom() == n
    ensures s.head == Null
  {
  }

  /** After the first call (an odd tick next, slot 0 taken), the next
      `2n - 2` calls spawn into slots `1` to `n - 1` in order and empty the
      pool. */
  lemma TakeRestOfPool(s: State, width: int, rands: seq<nat>)
    requires Inv(s) && 0 < width
    requires !SpawnTick(s.ticks) && s.FreeFrom() == 1 && |rands| == 2 * |s.particles| - 2
    ensures Spawns(s, width, rands) == Range(1, |s.particles|)
    ensures Run(s, width, rands).head == Null
  {
    EvenTicksOfPairs(false, |s.particles| - 1);
    RunTakesOnEvenTicks(s, width, rands);
    RunSpawnsConsecutive(s, width, rands);
    ExhaustedHead(Run(s, width, rands), |s.particles|);
  }

  /** From a zero-filled block of `n` slots, the first call and the `2n - 2`
      after it spawn into every slot, `0` to `n - 1` in order, and leave the
      pool exhausted; by RunHeadMovesForward it stays so. */
  lemma FreshPoolExhaustedAfter2nMinus1Calls(n: nat, width: int, first: nat, rands: seq<nat>)
    requires 0 < n && 0 < width && |rands| == 2 * n - 2
    ensures Spawned(ZeroState(n)) == Some(0)
    ensures Inv(Step(ZeroState(n), width, first))
    ensures Spawns(Step(ZeroState(n), width, first), width, rands) == Range(1, n)
    ensures Run(Step(ZeroState(n), width, first), width, rands).head == Null
  {
    FirstStep(n, width, first);
    TakeRestOfPool(Step(ZeroState(n), width, first), width, rands);
  }
}
