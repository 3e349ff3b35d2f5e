/** The particle pool: a fixed array of particle slots with a free list
threaded through the slots' `next` links.

Slots are named by index and a link of `Null` (-1) is the null pointer.
The pool is modelled from the memory block the host hands over, which is
zero-filled: every lifetime 0, every link and the head null. Setup links
slot `i` to `i + 1` and points the head at slot 0; acquiring pops the
head. Nothing ever pushes a slot back.
 */
module Pool {
  import opened Math

  datatype Option<T> = None | Some(value: T)

  const Null := -1

  /** Lifetime, in ticks, given to a freshly spawned particle. */
  const SpawnLifetime := 200

  /** The integer part of a particle: its horizontal position (an integer
      column when spawned, never moved afterwards), its remaining lifetime
      and its free-list link. Vertical position, radius and colour are
      floating point and not part of the model. */
  datatype Particle = Particle(x: int, lifetime: int, next: int)

  /** The persistent state: the memory block's initialised flag, the slot
      array, the head of the free list and the tick counter. */
  datatype State = State(initialized: bool, particles: seq<Particle>, head: int, ticks: nat)
  {
    /** The head points at a slot or is null. */
    predicate HeadOk()
    {
      head == Null || 0 <= head < |particles|
    }

    /** First slot still on the free list; `|particles|` when it is empty. */
    function FreeFrom(): int
    {
      if head == Null then |particles| else head
    }

    /** The shape setup gives the free list and acquiring preserves: the
        list is the run of slots from the head to the last slot, each
        linked to its successor, the last slot's link null. */
    predicate Linked()
    {
      && 0 < |particles|
      && HeadOk()
      && particles[|particles| - 1].next == Null
      && forall i :: FreeFrom() <= i < |particles| - 1 ==> particles[i].next == i + 1
    }
  }

  /** The zero-filled memory block the host provides before the first call. */
  function ZeroState(n: nat): State
  {
    State(false, seq(n, _ => Particle(0, 0, Null)), Null, 0)
  }

  /** One-time setup: links slot `i` to slot `i + 1` for every slot but the
      last, points the head at slot 0 and raises the flag. Lifetimes,
      positions and the last slot's link keep what the block held. */
  function Initialize(s: State): (t: State)
    requires 0 < |s.particles|
    ensures t.initialized && t.head == 0 && t.ticks == s.ticks
    ensures |t.particles| == |s.particles|
    ensures forall i :: 0 <= i < |s.particles| - 1 ==> t.particles[i].next == i + 1
    ensures t.particles[|s.particles| - 1] == s.particles[|s.particles| - 1]
    ensures forall i :: 0 <= i < |s.particles| ==>
              t.particles[i].lifetime == s.particles[i].lifetime && t.particles[i].x == s.particles[i].x
    ensures s.particles[|s.particles| - 1].next == Null ==> t.Linked()
  {
    var n := |s.particles|;
    s.(initialized := true,
       particles := seq(n, i requires 0 <= i < n =>
                          if i < n - 1 then s.particles[i].(next := i + 1) else s.particles[i]),
       head := 0)
  }

  /** Takes the slot at the head of the free list, if there is one; the
      head moves on to that slot's link. No slot's contents change. */
  function Acquire(s: State): (r: (Option<int>, State))
    requires s.HeadOk()
    ensures s.head == Null <==> r.0 == None
    ensures r.0 == None ==> r.1 == s
    ensures r.0.Some? ==> r.0.value == s.head && r.1 == s.(head := s.particles[s.head].next)
    ensures s.Linked() ==> r.1.Linked()
    ensures s.Linked() && r.0.Some? ==> r.1.FreeFrom() == s.FreeFrom() + 1
  {
    if s.head == Null then (None, s)
    else (Some(s.head), s.(head := s.particles[s.head].next))
  }

  /** `k` acquisitions in a row: the slots obtained, in order, and the
      state afterwards. */
  function AcquireN(s: State, k: nat): (r: (seq<int>, State))
    requires s.Linked()
    ensures r.1.Linked()
    decreases k
  {
    if k == 0 then ([], s)
    else
      var (got, s1) := Acquire(s);
      var (rest, s2) := AcquireN(s1, k - 1);
      (if got.Some? then [got.value] + rest else rest, s2)
  }

  /** The consecutive slots `lo, lo + 1, …, hi - 1`. */
  function Range(lo: int, hi: int): (r: seq<int>)
    ensures |r| == if lo < hi then hi - lo else 0
    ensures forall k :: 0 <= k < |r| ==> r[k] == lo + k
    decreases hi - lo
  {
    if lo < hi then [lo] + Range(lo + 1, hi) else []
  }

  /** The free list as the slots met by following links from `h`, for at
      most `fuel` steps; a link out of range ends the walk. */
  function Walk(ps: seq<Particle>, h: int, fuel: nat): seq<int>
    decreases fuel
  {
    if fuel == 0 || h < 0 || h >= |ps| then [] else [h] + Walk(ps, ps[h].next, fuel - 1)
  }

  /** The free list of a state: the walk from its head. */
  function FreeList(s: State): seq<int>
  {
    Walk(s.particles, s.head, |s.particles|)
  }

  /** In a linked pool, following the links from any free slot visits the
      remaining slots in index order and then stops at null. */
  lemma {:induction false} WalkLinked(s: State, h: int, fuel: nat)
    requires s.Linked()
    requires s.FreeFrom() <= h < |s.particles| && fuel >= |s.particles| - h
    ensures Walk(s.particles, h, fuel) == Range(h, |s.particles|)
    decreases |s.particles| - h
  {
    var n := |s.particles|;
    if h == n - 1 {
      assert Walk(s.particles, Null, fuel - 1) == [];
    } else {
      WalkLinked(s, h + 1, fuel - 1);
    }
  }

  /** The free list of a linked pool is exactly the slots from the head to
      the end, in order; it is empty exactly when the head is null. */
  lemma FreeListIsSuffix(s: State)
    requires s.Linked()
    ensures FreeList(s) == Range(s.FreeFrom(), |s.particles|)
    ensures FreeList(s) == [] <==> s.head == Null
  {
    if s.head != Null {
      WalkLinked(s, s.head, |s.particles|);
    }
  }

  /** Acquire is a pop of the free list: it fails exactly when the list is
      empty, and otherwise returns the list's first slot and leaves the
      rest of the list. */
  lemma AcquirePops(s: State)
    requires s.Linked()
    ensures Acquire(s).0 == None <==> FreeList(s) == []
    ensures Acquire(s).0.Some? ==>
              Acquire(s).0.value == FreeList(s)[0] && FreeList(Acquire(s).1) == FreeList(s)[1..]
  {
    var t := Acquire(s).1;
    FreeListIsSuffix(s);
    FreeListIsSuffix(t);
    if s.head != Null {
      assert FreeList(s)[1..] == Range(s.head + 1, |s.particles|);
    }
  }

  /** From a pool whose free list starts at `h`, `k` acquisitions return
      the next `k` slots in order (as many as remain), and once all remaining
      slots are taken the head is null. */
  lemma {:induction false} AcquireNFrom(s: State, k: nat)
    requires s.Linked()
    ensures AcquireN(s, k).0 == Range(s.FreeFrom(), Min(s.FreeFrom() + k, |s.particles|))
    ensures s.FreeFrom() + k >= |s.particles| ==> AcquireN(s, k).1.head == Null
    decreases k
  {
    if k > 0 {
      var s1 := Acquire(s).1;
      AcquireNFrom(s1, k - 1);
      if s.head == Null {
        assert s1 == s;
      }
    }
  }

  /** After setup of a zero-filled block of `n` slots, `n` acquisitions in a
      row return the slots `0, 1, …, n - 1`, each once and in order, and the
      acquisition after them finds the pool exhausted. */
  lemma AcquireAllAfterInitialize(n: nat)
    requires 0 < n
    ensures AcquireN(Initialize(ZeroState(n)), n).0 == Range(0, n)
    ensures forall i, j :: 0 <= i < j < n ==> AcquireN(Initialize(ZeroState(n)), n).0[i] < AcquireN(Initialize(ZeroState(n)), n).0[j]
    ensures Acquire(AcquireN(Initialize(ZeroState(n)), n).1).0 == None
  {
    AcquireNFrom(Initialize(ZeroState(n)), n);
  }
}
