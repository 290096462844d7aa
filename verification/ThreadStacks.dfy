/**
 * The budgeted storage that thread stacks are captured into: a vector of frames for each thread,
 * all vectors together holding at most MAXIMUM_FRAME_CAPACITY reserved frames.
 */
module ThreadStacks {
  import opened FunctionIdentifiers

  const MAXIMUM_FRAMES_PER_STACK: nat := 512
  const MAXIMUM_FRAME_CAPACITY: nat := 32 * 1024
  const MAXIMUM_THREADS: nat := 1024
  const INITIAL_STACK_FRAME_CAPACITY: nat := 80

  function Min(a: int, b: int): int {
    if a < b then a else b
  }

  function Max(a: int, b: int): int {
    if a < b then b else a
  }

  // ---------------------------------------------------------------- sums over maps

  ghost function Sum<K>(m: map<K, nat>): nat
    decreases |m|
  {
    if m == map[] then 0 else
      var k :| k in m;
      RemovedIsSmaller(m, k);
      m[k] + Sum(m - {k})
  }

  lemma RemovedIsSmaller<K, V>(m: map<K, V>, k: K)
    requires k in m
    ensures |m - {k}| == |m| - 1
  {
    assert (m - {k}).Keys == m.Keys - {k};
    assert |m.Keys - {k}| == |m.Keys| - 1;
  }

  lemma {:induction false} SumSplit<K>(m: map<K, nat>, k: K)
    requires k in m
    ensures Sum(m) == m[k] + Sum(m - {k})
    decreases |m|
  {
    var j :| j in m && Sum(m) == m[j] + Sum(m - {j});
    if j != k {
      RemovedIsSmaller(m, j);
      RemovedIsSmaller(m, k);
      SumSplit(m - {j}, k);
      SumSplit(m - {k}, j);
      assert m - {j} - {k} == m - {k} - {j};
    }
  }

  lemma SumUpdate<K>(m: map<K, nat>, k: K, v: nat)
    ensures Sum(m[k := v]) == Sum(m) + v - (if k in m then m[k] else 0)
  {
    SumSplit(m[k := v], k);
    if k in m {
      SumSplit(m, k);
      assert m[k := v] - {k} == m - {k};
    } else {
      assert m[k := v] - {k} == m;
    }
  }

  ghost function Nonzero<K>(m: map<K, nat>): set<K> {
    set k | k in m && m[k] > 0
  }

  lemma OneMore(c: int, z: int)
    ensures c * (z + 1) == c * z + c
  {
  }

  /** A sum is at most its largest summand times the number of nonzero ones. */
  lemma {:induction false} SumBound<K>(m: map<K, nat>, c: nat)
    requires forall k :: k in m ==> m[k] <= c
    ensures Sum(m) <= c * |Nonzero(m)|
    decreases |m|
  {
    if m == map[] {
      return;
    } else {
      hide Sum;
      var k :| k in m;
      SumSplit(m, k);
      RemovedIsSmaller(m, k);
      var rest := m - {k};
      SumBound(rest, c);
      if m[k] > 0 {
        assert Nonzero(m) == Nonzero(rest) + {k};
        assert |Nonzero(m)| == |Nonzero(rest)| + 1;
        OneMore(c, |Nonzero(rest)|);
      } else {
        assert Nonzero(m) == Nonzero(rest);
      }
    }
  }

  // ---------------------------------------------------------------- one vector

  /** Vector storage as a reservation sees it: what it holds, and how much it has room for. */
  class FrameVector {
    var frames: seq<FunctionIdentifier>
    var capacity: nat

    /** The thread whose frames this vector stores. */
    ghost const owner: ThreadID

    constructor (ghost owner: ThreadID)
      ensures frames == [] && capacity == 0 && this.owner == owner
    {
      frames, capacity := [], 0;
      this.owner := owner;
    }
  }

  /** reserve(n) may grant more than n. */
  ghost predicate Grants(reserve: nat -> nat) {
    forall n: nat :: n <= reserve(n)
  }

  ghost predicate Exact(reserve: nat -> nat) {
    forall n: nat :: reserve(n) == n
  }

  /** The capacity an exact reservation grows a full vector to. */
  function NextCapacity(capacity: nat, maximumCapacity: nat): nat {
    Min(Min(MAXIMUM_FRAMES_PER_STACK, maximumCapacity), Max(INITIAL_STACK_FRAME_CAPACITY, capacity * 2))
  }

  method TryReserveStackFrame(buffer: FrameVector, maximumCapacity: nat, reserve: nat -> nat) returns (ok: bool)
    requires Grants(reserve)
    requires |buffer.frames| <= buffer.capacity
    modifies buffer`capacity
    ensures buffer.capacity == old(buffer.capacity)
         || old(buffer.capacity) < buffer.capacity <= Min(MAXIMUM_FRAMES_PER_STACK, maximumCapacity)
    ensures buffer.capacity != old(buffer.capacity) ==> ok && |buffer.frames| == old(buffer.capacity)
    ensures ok ==> |buffer.frames| < buffer.capacity
    ensures Exact(reserve) ==>
              (ok <==> (&& |buffer.frames| < MAXIMUM_FRAMES_PER_STACK
                        && (|buffer.frames| < old(buffer.capacity) || old(buffer.capacity) < maximumCapacity)))
    ensures Exact(reserve) && ok && |buffer.frames| == old(buffer.capacity) ==>
              buffer.capacity == NextCapacity(old(buffer.capacity), maximumCapacity)
  {
    if |buffer.frames| >= MAXIMUM_FRAMES_PER_STACK {
      return false;
    }
    if |buffer.frames| < buffer.capacity {
      return true;
    }
    var boundedCapacity := Min(MAXIMUM_FRAMES_PER_STACK, maximumCapacity);
    var nextCapacity := Min(boundedCapacity, Max(INITIAL_STACK_FRAME_CAPACITY, buffer.capacity * 2));
    if nextCapacity <= buffer.capacity {
      return false;
    }
    var expandedCapacity := reserve(nextCapacity);
    if expandedCapacity > boundedCapacity {
      return false;
    }
    // The frames move into the expanded storage, in order.
    buffer.capacity := expandedCapacity;
    return true;
  }

  // ---------------------------------------------------------------- all vectors

  /** Storage reserved up front for each of threadCount threads. */
  function InitialCapacity(threadCount: nat): (c: nat)
    ensures c <= INITIAL_STACK_FRAME_CAPACITY
    ensures c * threadCount <= MAXIMUM_FRAME_CAPACITY
    ensures threadCount <= MAXIMUM_THREADS ==> c >= 32
  {
    if threadCount == 0 then INITIAL_STACK_FRAME_CAPACITY
    else Min(INITIAL_STACK_FRAME_CAPACITY, MAXIMUM_FRAME_CAPACITY / threadCount)
  }

  function FreshCapacity(activeThreads: set<ThreadID>): nat {
    InitialCapacity(Min(|activeThreads|, MAXIMUM_THREADS))
  }

  // ---------------------------------------------------------------- fairness

  /** The budget still covers initialCapacity frames for each of the n threads not yet provisioned. */
  ghost predicate Affordable<K>(capacities: map<K, nat>, used: nat, initialCapacity: nat, n: nat) {
    used + initialCapacity * (n - |Nonzero(capacities)|) <= MAXIMUM_FRAME_CAPACITY
  }

  lemma SubsetIsSmaller<K>(a: set<K>, b: set<K>)
    requires a <= b
    ensures |a| <= |b|
  {
    assert b == a + (b - a);
  }

  lemma NonzeroUpdate<K>(m: map<K, nat>, k: K, v: nat)
    requires k in m && m[k] > 0 ==> v > 0
    ensures |Nonzero(m[k := v])| == |Nonzero(m)| + if v > 0 && (k !in m || m[k] == 0) then 1 else 0
  {
    if v > 0 {
      assert Nonzero(m[k := v]) == Nonzero(m) + {k};
    } else {
      assert Nonzero(m[k := v]) == Nonzero(m);
    }
  }

  lemma UnprovisionedIsCounted<K>(m: map<K, nat>, active: set<K>, k: K)
    requires m.Keys <= active && k in active && (k in m ==> m[k] == 0)
    requires |m| <= MAXIMUM_THREADS && (k in m || |m| < MAXIMUM_THREADS)
    ensures |Nonzero(m)| < Min(|active|, MAXIMUM_THREADS)
  {
    SubsetIsSmaller(Nonzero(m), active - {k});
    SubsetIsSmaller(Nonzero(m), m.Keys - {k});
  }

  lemma AtLeastOnce(a: nat, d: int)
    ensures d > 0 ==> a * d >= a
  {
  }

  lemma Distribute(a: nat, n: int, z: int)
    ensures a * n == a * z + a * (n - z)
  {
  }

  lemma AffordOne<K>(m: map<K, nat>, used: nat, initialCapacity: nat, n: nat, k: K)
    requires Affordable(m, used, initialCapacity, n) && |Nonzero(m)| < n
    requires k in m ==> m[k] == 0
    ensures initialCapacity <= MAXIMUM_FRAME_CAPACITY - used
    ensures initialCapacity > 0 ==> Affordable(m[k := initialCapacity], used + initialCapacity, initialCapacity, n)
  {
    var d := n - |Nonzero(m)|;
    assert initialCapacity * d == initialCapacity * (d - 1) + initialCapacity;
    assert initialCapacity * (d - 1) >= 0;
    NonzeroUpdate(m, k, initialCapacity);
  }

  lemma SpentMeansServed<K>(m: map<K, nat>, used: nat, initialCapacity: nat, n: nat)
    requires Affordable(m, used, initialCapacity, n) && initialCapacity > 0 && used >= MAXIMUM_FRAME_CAPACITY
    ensures |Nonzero(m)| >= n
  {
    AtLeastOnce(initialCapacity, n - |Nonzero(m)|);
  }

  /** What admitting k does to the capacities and their total when reservation is exact. */
  ghost predicate Admitted<K>(m: map<K, nat>, used: nat, m': map<K, nat>, used': nat, k: K, initialCapacity: nat) {
    if (k in m && m[k] > 0) || (k !in m && (|m| >= MAXIMUM_THREADS || used >= MAXIMUM_FRAME_CAPACITY)) then
      m' == m && used' == used
    else
      initialCapacity <= MAXIMUM_FRAME_CAPACITY - used ==>
        m' == m[k := initialCapacity] && used' == used + initialCapacity
  }

  /** Of the active threads, all but those in todo have been admitted, starting from the capacities start. */
  ghost predicate Fair<K>(start: map<K, nat>, m: map<K, nat>, used: nat, initialCapacity: nat, active: set<K>,
        todo: set<K>)
  {
    var n := Min(|active|, MAXIMUM_THREADS);
    && start.Keys <= m.Keys <= active && |m| <= MAXIMUM_THREADS
    && Affordable(m, used, initialCapacity, n)
    && (forall k :: k in active && k !in todo && k !in m ==> |m| >= MAXIMUM_THREADS || |Nonzero(m)| >= n)
    && (forall k :: k in m ==>
          if k in start && (k in todo || start[k] > 0) then m[k] == start[k]
          else k !in todo && m[k] == initialCapacity)
  }

  lemma {:induction false} FairStep<K>(start: map<K, nat>, m: map<K, nat>, used: nat, m': map<K, nat>, used': nat, k: K,
                    initialCapacity: nat, active: set<K>, todo: set<K>)
    requires Fair(start, m, used, initialCapacity, active, todo) && k in todo && todo <= active
    requires Admitted(m, used, m', used', k, initialCapacity) && initialCapacity > 0
    ensures Fair(start, m', used', initialCapacity, active, todo - {k})
  {
    hide Affordable, Nonzero;
    var n := Min(|active|, MAXIMUM_THREADS);
    if k in m && m[k] > 0 {
    } else if k !in m && |m| >= MAXIMUM_THREADS {
    } else {
      UnprovisionedIsCounted(m, active, k);
      if k !in m && used >= MAXIMUM_FRAME_CAPACITY {
        SpentMeansServed(m, used, initialCapacity, n);
      } else {
        FairServe(start, m, used, k, initialCapacity, active, todo);
      }
    }
  }

  lemma FairServe<K>(start: map<K, nat>, m: map<K, nat>, used: nat, k: K,
                     initialCapacity: nat, active: set<K>, todo: set<K>)
    requires Fair(start, m, used, initialCapacity, active, todo) && k in todo && todo <= active
    requires initialCapacity > 0 && (if k in m then m[k] == 0 else |m| < MAXIMUM_THREADS)
    ensures initialCapacity <= MAXIMUM_FRAME_CAPACITY - used
    ensures Fair(start, m[k := initialCapacity], used + initialCapacity, initialCapacity, active, todo - {k})
  {
    hide Affordable, Nonzero;
    UnprovisionedIsCounted(m, active, k);
    AffordOne(m, used, initialCapacity, Min(|active|, MAXIMUM_THREADS), k);
    NonzeroUpdate(m, k, initialCapacity);
    assert m[k := initialCapacity].Keys == m.Keys + {k};
  }

  lemma FairEnd<K>(start: map<K, nat>, m: map<K, nat>, used: nat, initialCapacity: nat, active: set<K>)
    requires Fair(start, m, used, initialCapacity, active, {}) && initialCapacity > 0
    ensures |m| == Min(|active|, MAXIMUM_THREADS)
    ensures forall k :: k in m ==> m[k] == if k in start && start[k] > 0 then start[k] else initialCapacity
  {
    hide Affordable;
    SubsetIsSmaller(m.Keys, active);
    SubsetIsSmaller(Nonzero(m), m.Keys);
    if active <= m.Keys {
      SubsetIsSmaller(active, m.Keys);
    } else {
      var k :| k in active && k !in m;
    }
  }

  // ---------------------------------------------------------------- deliveries

  type Delivery = (ThreadID, FunctionIdentifier)

  /** When a capture sees the shutdown request: not at all, before it begins, or behind a number of recorded frames. */
  datatype Shutdown = Never | AtStart | Behind(frames: nat)

  /** The frames of ds that belong to thread t. */
  function FramesOf(t: ThreadID, ds: seq<Delivery>): seq<FunctionIdentifier> {
    if ds == [] then []
    else FramesOf(t, ds[..|ds| - 1]) + (if ds[|ds| - 1].0 == t then [ds[|ds| - 1].1] else [])
  }

  /** a is b with some elements left out. */
  ghost predicate IsSubsequence<T>(a: seq<T>, b: seq<T>) {
    || a == []
    || (b != [] && (|| IsSubsequence(a, b[..|b| - 1])
                    || (a[|a| - 1] == b[|b| - 1] && IsSubsequence(a[..|a| - 1], b[..|b| - 1]))))
  }

  lemma SubsequenceStep<T>(a: seq<T>, b: seq<T>, x: T)
    requires IsSubsequence(a, b)
    ensures IsSubsequence(a, b + [x]) && IsSubsequence(a + [x], b + [x])
  {
    assert (b + [x])[..|b|] == b && (a + [x])[..|a|] == a;
  }

  /** What a thread keeps of the frames delivered for it; full says whether it has no room left. */
  ghost predicate Kept(frames: seq<FunctionIdentifier>, delivered: seq<FunctionIdentifier>, full: bool, exact: bool) {
    && IsSubsequence(frames, delivered)
    && (exact ==> frames <= delivered && (frames != delivered ==> full))
  }

  lemma KeptStep(frames: seq<FunctionIdentifier>, delivered: seq<FunctionIdentifier>, full: bool, exact: bool,
                 x: FunctionIdentifier, recorded: bool, full': bool)
    requires Kept(frames, delivered, full, exact)
    requires exact ==> (recorded <==> !full)
    requires !recorded && full ==> full'
    ensures Kept(if recorded then frames + [x] else frames, delivered + [x], full', exact)
  {
    hide IsSubsequence;
    SubsequenceStep(frames, delivered, x);
  }

  lemma KeptElsewhere(frames: seq<FunctionIdentifier>, delivered: seq<FunctionIdentifier>, full: bool, exact: bool,
                      full': bool)
    requires Kept(frames, delivered, full, exact) && (full ==> full')
    ensures Kept(frames, delivered, full', exact)
  {
  }

  lemma FramesOfStep(t: ThreadID, ds: seq<Delivery>, i: nat)
    requires i < |ds|
    ensures FramesOf(t, ds[..i + 1]) == FramesOf(t, ds[..i]) + if ds[i].0 == t then [ds[i].1] else []
  {
    assert ds[..i + 1][..i] == ds[..i];
  }

  class ThreadStacksBuffer {
    var stacks: map<ThreadID, FrameVector>
    var frameCapacity: nat
    var cachedThread: ThreadID
    var cachedStack: FrameVector?
    const reserve: nat -> nat

    ghost function Capacities(): map<ThreadID, nat>
      reads `stacks, stacks.Values
    {
      map t | t in stacks :: stacks[t].capacity
    }

    /** Threads that have storage for at least one frame. */
    ghost function Provisioned(): set<ThreadID>
      reads `stacks, stacks.Values
    {
      Nonzero(Capacities())
    }

    /** Storage is accounted for exactly and stays within its three limits. */
    ghost predicate Budgeted()
      reads `stacks, `frameCapacity, stacks.Values
    {
      && |stacks| <= MAXIMUM_THREADS
      && frameCapacity == Sum(Capacities()) <= MAXIMUM_FRAME_CAPACITY
      && forall t :: t in stacks ==> |stacks[t].frames| <= stacks[t].capacity <= MAXIMUM_FRAMES_PER_STACK
    }

    /** No two threads share a vector. */
    ghost predicate Distinct()
      reads `stacks
    {
      forall t :: t in stacks ==> stacks[t].owner == t
    }

    /** The cached vector is the live one of the cached thread. */
    ghost predicate CacheLive()
      reads `stacks, `cachedThread, `cachedStack
    {
      cachedStack != null ==> cachedThread in stacks && stacks[cachedThread] == cachedStack
    }

    ghost predicate Valid()
      reads this, stacks.Values
    {
      Grants(reserve) && Budgeted() && Distinct() && CacheLive()
    }

    constructor (reserve: nat -> nat)
      requires Grants(reserve)
      ensures Valid() && stacks == map[] && this.reserve == reserve
    {
      this.reserve := reserve;
      stacks, frameCapacity, cachedThread, cachedStack := map[], 0, 0, null;
      new;
      assert Capacities() == map[];
    }

    /** With exact reservation, the only reasons to drop a frame of a known thread. */
    ghost predicate Full(t: ThreadID)
      requires t in stacks
      reads `stacks, `frameCapacity, stacks.Values
    {
      && |stacks[t].frames| == stacks[t].capacity
      && (stacks[t].capacity == MAXIMUM_FRAMES_PER_STACK || frameCapacity == MAXIMUM_FRAME_CAPACITY)
    }

    lemma CapacityChanged(before: map<ThreadID, nat>, threadId: ThreadID)
      requires threadId in stacks && before.Keys == stacks.Keys
      requires forall t :: t in stacks && t != threadId ==> stacks[t].capacity == before[t]
      ensures Sum(Capacities()) == Sum(before) - before[threadId] + stacks[threadId].capacity
    {
      SumUpdate(before, threadId, stacks[threadId].capacity);
      assert Capacities() == before[threadId := stacks[threadId].capacity];
    }

    /** Grows a full vector within the budget the other threads leave it. */
    method Grow(threadId: ThreadID, buffer: FrameVector) returns (ok: bool)
      requires Grants(reserve) && Budgeted() && Distinct()
      requires threadId in stacks && stacks[threadId] == buffer && |buffer.frames| == buffer.capacity
      modifies this`frameCapacity, buffer`capacity
      ensures Budgeted()
      ensures frameCapacity >= old(frameCapacity)
      ensures if ok then |buffer.frames| < buffer.capacity else buffer.capacity == old(buffer.capacity)
      ensures Exact(reserve) ==> (!ok <==> old(Full(threadId)))
    {
      hide Sum, Grants, Exact;
      var previousCapacity := buffer.capacity;
      ghost var before := Capacities();
      ok := TryReserveStackFrame(buffer, previousCapacity + MAXIMUM_FRAME_CAPACITY - frameCapacity, reserve);
      CapacityChanged(before, threadId);
      frameCapacity := frameCapacity + buffer.capacity - previousCapacity;
    }

    method TryPrepareFrame(threadId: ThreadID) returns (stack: FrameVector?)
      requires Valid()
      modifies this`frameCapacity, this`cachedThread, this`cachedStack, stacks.Values`capacity
      ensures Valid()
      ensures forall t :: t in stacks && t != threadId ==> stacks[t].capacity == old(stacks[t].capacity)
      ensures frameCapacity >= old(frameCapacity)
      ensures stack != null ==>
                threadId in stacks && stack == stacks[threadId] && |stack.frames| < stack.capacity
      ensures stack == null && threadId in stacks ==> stacks[threadId].capacity == old(stacks[threadId].capacity)
      ensures Exact(reserve) ==> (stack == null <==> threadId !in stacks || old(Full(threadId)))
    {
      hide Sum, Grants, Exact;
      if cachedStack == null || cachedThread != threadId {
        if threadId !in stacks {
          return null;
        }
        cachedThread := threadId;
        cachedStack := stacks[threadId];
      }
      var buffer := cachedStack;
      if |buffer.frames| < buffer.capacity {
        return buffer;
      }
      var ok := Grow(threadId, buffer);
      if !ok {
        return null;
      }
      return buffer;
    }

    /** One frame reported by the stack walker; it is dropped when its thread has no room left. */
    method RecordFrame(threadId: ThreadID, frame: FunctionIdentifier) returns (recorded: bool)
      requires Valid()
      modifies this`frameCapacity, this`cachedThread, this`cachedStack, stacks.Values
      ensures Valid()
      ensures forall t :: t in stacks ==>
                stacks[t].frames == old(stacks[t].frames) + if recorded && t == threadId then [frame] else []
      ensures forall t :: t in stacks && t != threadId ==> stacks[t].capacity == old(stacks[t].capacity)
      ensures frameCapacity >= old(frameCapacity)
      ensures recorded ==> threadId in stacks
      ensures forall t :: t in stacks && old(Full(t)) && !(recorded && t == threadId) ==> Full(t)
      ensures Exact(reserve) ==> (recorded <==> threadId in stacks && !old(Full(threadId)))
    {
      hide Sum, Grants, Exact, Budgeted, CacheLive;
      var buffer := TryPrepareFrame(threadId);
      BudgetBound();
      if buffer == null {
        return false;
      }
      Push(threadId, buffer, frame);
      return true;
    }

    method Push(threadId: ThreadID, buffer: FrameVector, frame: FunctionIdentifier)
      requires Budgeted() && threadId in stacks && stacks[threadId] == buffer && |buffer.frames| < buffer.capacity
      modifies buffer`frames
      ensures Budgeted()
      ensures buffer.frames == old(buffer.frames) + [frame]
    {
      hide Sum;
      ghost var before := Capacities();
      buffer.frames := buffer.frames + [frame];
      assert Capacities() == before;
    }

    lemma BudgetBound()
      requires Budgeted()
      ensures frameCapacity <= MAXIMUM_FRAME_CAPACITY
    {
    }

    /** Removes one entry and returns its storage to the budget. */
    method Erase(threadId: ThreadID)
      requires Budgeted() && Distinct() && threadId in stacks
      modifies `stacks, `frameCapacity
      ensures Budgeted() && Distinct()
      ensures stacks == old(stacks) - {threadId}
    {
      hide Sum;
      ghost var before := Capacities();
      SumSplit(before, threadId);
      RemovedIsSmaller(stacks, threadId);
      frameCapacity := frameCapacity - stacks[threadId].capacity;
      stacks := stacks - {threadId};
      assert Capacities() == before - {threadId};
    }

    /** Drops the entries of inactive threads and those without storage. */
    method EraseStale(activeThreads: set<ThreadID>)
      requires Budgeted() && Distinct()
      modifies `stacks, `frameCapacity
      ensures Budgeted() && Distinct()
      ensures stacks.Keys == set t | t in old(stacks) && t in activeThreads && old(stacks[t].capacity) > 0
      ensures forall t :: t in stacks ==> stacks[t] == old(stacks[t])
    {
      hide Sum, Budgeted, Distinct;
      var todo := stacks.Keys;
      while todo != {}
        invariant todo <= stacks.Keys <= old(stacks).Keys
        invariant Budgeted() && Distinct()
        invariant forall t :: t in old(stacks) && t !in todo ==>
                    (t in stacks <==> t in activeThreads && old(stacks[t].capacity) > 0)
        invariant forall t :: t in stacks ==> stacks[t] == old(stacks[t])
        decreases |todo|
      {
        var t :| t in todo;
        todo := todo - {t};
        if stacks[t].capacity == 0 || t !in activeThreads {
          Erase(t);
        }
      }
    }

    /** Swaps one vector for an empty one. */
    method Empty(threadId: ThreadID, buffer: FrameVector)
      requires Budgeted() && Distinct() && threadId in stacks && stacks[threadId] == buffer
      modifies `frameCapacity, buffer
      ensures Budgeted()
      ensures buffer.frames == [] && buffer.capacity == 0
    {
      hide Sum;
      ghost var before := Capacities();
      SumSplit(before, threadId);
      frameCapacity := frameCapacity - buffer.capacity;
      buffer.frames, buffer.capacity := [], 0;
      CapacityChanged(before, threadId);
    }

    /** Gives back the storage of every vector larger than initialCapacity. */
    method Reclaim(initialCapacity: nat)
      requires Budgeted() && Distinct()
      modifies `frameCapacity, stacks.Values
      ensures Budgeted()
      ensures forall t :: t in stacks ==>
                if old(stacks[t].capacity) > initialCapacity then stacks[t].capacity == 0 && stacks[t].frames == []
                else stacks[t].capacity == old(stacks[t].capacity) && stacks[t].frames == old(stacks[t].frames)
    {
      hide Sum, Budgeted;
      var todo := stacks.Keys;
      while todo != {}
        invariant todo <= stacks.Keys
        invariant Budgeted()
        invariant forall t :: t in stacks ==>
                    if t !in todo && old(stacks[t].capacity) > initialCapacity
                    then stacks[t].capacity == 0 && stacks[t].frames == []
                    else stacks[t].capacity == old(stacks[t].capacity) && stacks[t].frames == old(stacks[t].frames)
        decreases |todo|
      {
        var t :| t in todo;
        todo := todo - {t};
        if stacks[t].capacity > initialCapacity {
          Empty(t, stacks[t]);
        }
      }
    }

    /** Adds an entry without storage. */
    method Add(threadId: ThreadID)
      requires Budgeted() && Distinct() && threadId !in stacks && |stacks| < MAXIMUM_THREADS
      modifies `stacks
      ensures Budgeted() && Distinct()
      ensures threadId in stacks && stacks == old(stacks)[threadId := stacks[threadId]]
      ensures fresh(stacks[threadId]) && stacks[threadId].frames == [] && stacks[threadId].capacity == 0
      ensures Capacities() == old(Capacities())[threadId := 0]
    {
      hide Sum;
      ghost var before := Capacities();
      var added := new FrameVector(threadId);
      stacks := stacks[threadId := added];
      SumUpdate(before, threadId, 0);
      assert Capacities() == before[threadId := 0];
    }

    /** Reserves storage for an entry that has none. */
    method Reserve(threadId: ThreadID, buffer: FrameVector, initialCapacity: nat)
      requires Grants(reserve) && Budgeted() && Distinct()
      requires threadId in stacks && stacks[threadId] == buffer && buffer.capacity == 0
      modifies `frameCapacity, buffer`capacity
      ensures Budgeted()
      ensures frameCapacity == old(frameCapacity) + buffer.capacity
      ensures Capacities() == old(Capacities())[threadId := buffer.capacity]
      ensures buffer.capacity <= initialCapacity
      ensures Exact(reserve) && initialCapacity <= INITIAL_STACK_FRAME_CAPACITY &&
              old(frameCapacity) + initialCapacity <= MAXIMUM_FRAME_CAPACITY ==>
                buffer.capacity == initialCapacity
    {
      hide Sum, Grants, Exact;
      ghost var before := Capacities();
      var ok := TryReserveStackFrame(buffer, Min(initialCapacity, MAXIMUM_FRAME_CAPACITY - frameCapacity), reserve);
      CapacityChanged(before, threadId);
      assert Capacities() == before[threadId := buffer.capacity];
      if ok {
        frameCapacity := frameCapacity + buffer.capacity;
      }
    }

    /** Finds or adds the entry of one active thread and reserves storage for it if it has none. */
    method Admit(threadId: ThreadID, initialCapacity: nat)
      requires Grants(reserve) && Budgeted() && Distinct()
      requires initialCapacity <= INITIAL_STACK_FRAME_CAPACITY
      modifies `stacks, `frameCapacity, stacks.Values`capacity
      ensures Budgeted() && Distinct()
      ensures if threadId !in stacks then
                && stacks == old(stacks) && frameCapacity == old(frameCapacity) && Capacities() == old(Capacities())
                && (|stacks| >= MAXIMUM_THREADS || frameCapacity >= MAXIMUM_FRAME_CAPACITY)
              else
                && stacks == old(stacks)[threadId := stacks[threadId]]
                && Capacities() == old(Capacities())[threadId := stacks[threadId].capacity]
                && (if threadId in old(stacks) then stacks[threadId] == old(stacks[threadId])
                    else fresh(stacks[threadId]) && stacks[threadId].frames == [])
      ensures threadId in old(stacks) && old(stacks[threadId].capacity) > 0 ==>
                stacks[threadId].capacity == old(stacks[threadId].capacity) && frameCapacity == old(frameCapacity)
      ensures forall t :: t in old(stacks) && t != threadId ==> stacks[t].capacity == old(stacks[t].capacity)
      ensures Exact(reserve) ==>
                Admitted(old(Capacities()), old(frameCapacity), Capacities(), frameCapacity, threadId, initialCapacity)
    {
      hide Sum, Grants, Exact, Budgeted, Distinct;
      assert Capacities().Keys == stacks.Keys;
      if threadId !in stacks {
        if |stacks| >= MAXIMUM_THREADS || frameCapacity >= MAXIMUM_FRAME_CAPACITY {
          return;
        }
        Add(threadId);
      }
      if stacks[threadId].capacity == 0 {
        Reserve(threadId, stacks[threadId], initialCapacity);
      }
    }

    method Provision(activeThreads: set<ThreadID>, initialCapacity: nat)
      requires Grants(reserve) && Budgeted() && Distinct() && stacks.Keys <= activeThreads
      requires 0 < initialCapacity <= INITIAL_STACK_FRAME_CAPACITY
      requires Affordable(Capacities(), frameCapacity, initialCapacity, Min(|activeThreads|, MAXIMUM_THREADS))
      modifies `stacks, `frameCapacity, stacks.Values`capacity
      ensures Budgeted() && Distinct()
      ensures old(stacks).Keys <= stacks.Keys <= activeThreads
      ensures forall t :: t in stacks ==>
                if t in old(stacks)
                then stacks[t] == old(stacks[t])
                  && (old(stacks[t].capacity) > 0 ==> stacks[t].capacity == old(stacks[t].capacity))
                else fresh(stacks[t]) && stacks[t].frames == []
      ensures Exact(reserve) ==>
                && |stacks| == Min(|activeThreads|, MAXIMUM_THREADS)
                && forall t :: t in stacks ==>
                     stacks[t].capacity == if t in old(stacks) && old(stacks[t].capacity) > 0
                                           then old(stacks[t].capacity) else initialCapacity
    {
      hide Sum, Nonzero, Grants, Exact, Budgeted, Distinct, Affordable, Admitted, Fair;
      var todo := activeThreads;
      ghost var start := Capacities();
      FairStart(activeThreads, initialCapacity);
      while todo != {}
        invariant todo <= activeThreads
        invariant Budgeted() && Distinct()
        invariant old(stacks).Keys <= stacks.Keys <= activeThreads
        invariant forall t :: t in stacks ==>
                    if t in old(stacks)
                    then stacks[t] == old(stacks[t])
                      && (old(stacks[t].capacity) > 0 ==> stacks[t].capacity == old(stacks[t].capacity))
                    else fresh(stacks[t]) && stacks[t].frames == []
        invariant Exact(reserve) ==>
                    Fair(start, Capacities(), frameCapacity, initialCapacity, activeThreads, todo)
        decreases |todo|
      {
        var t :| t in todo;
        ghost var m, used := Capacities(), frameCapacity;
        Admit(t, initialCapacity);
        if Exact(reserve) {
          FairStep(start, m, used, Capacities(), frameCapacity, t, initialCapacity, activeThreads, todo);
        }
        todo := todo - {t};
      }
      if Exact(reserve) {
        FairEnd(start, Capacities(), frameCapacity, initialCapacity, activeThreads);
        assert Capacities().Keys == stacks.Keys;
      }
    }

    lemma FairStart(activeThreads: set<ThreadID>, initialCapacity: nat)
      requires Budgeted() && stacks.Keys <= activeThreads
      requires Affordable(Capacities(), frameCapacity, initialCapacity, Min(|activeThreads|, MAXIMUM_THREADS))
      ensures Fair(Capacities(), Capacities(), frameCapacity, initialCapacity, activeThreads, activeThreads)
    {
      hide Affordable, Sum, Nonzero;
      assert Capacities().Keys == stacks.Keys;
    }

    /** Storage of the active threads, before a capture is prepared. */
    ghost function Surviving(activeThreads: set<ThreadID>): map<ThreadID, nat>
      reads `stacks, stacks.Values
    {
      map t | t in stacks && t in activeThreads && stacks[t].capacity > 0 :: stacks[t].capacity
    }

    /** What is left of the budget is too little for that many fresh vectors. */
    static predicate Short(missingThreads: int, initialCapacity: nat, used: nat) {
      missingThreads * initialCapacity > MAXIMUM_FRAME_CAPACITY - used
    }

    /** The active threads' storage leaves too little for a fresh vector for every other one. */
    ghost predicate Contended(activeThreads: set<ThreadID>)
      reads `stacks, stacks.Values
    {
      var kept := Surviving(activeThreads);
      Short(Min(|activeThreads|, MAXIMUM_THREADS) - |kept|, FreshCapacity(activeThreads), Sum(kept))
    }

    /** Capacity and frames of a vector before and after: untouched, unless it is to give back more than limit. */
    static predicate Spared(reclaimed: bool, limit: nat, before: (nat, seq<FunctionIdentifier>),
          after: (nat, seq<FunctionIdentifier>))
    {
      if reclaimed && before.0 > limit then after.1 == [] else after == before
    }

    method PrepareForCapture(activeThreads: set<ThreadID>)
      requires Valid()
      modifies this, stacks.Values
      ensures Valid() && cachedStack == null
      ensures stacks.Keys <= activeThreads
      // A vector of an active thread is kept as it is, unless it is larger than a fresh one and that is in the way.
      ensures forall t :: t in old(Surviving(activeThreads)) ==>
                && t in stacks && stacks[t] == old(stacks[t])
                && Spared(old(Contended(activeThreads)), FreshCapacity(activeThreads),
                          old((stacks[t].capacity, stacks[t].frames)), (stacks[t].capacity, stacks[t].frames))
      ensures forall t :: t in stacks && t !in old(Surviving(activeThreads)) ==>
                fresh(stacks[t]) && stacks[t].frames == []
      // As many active threads as the limit admits get storage.
      ensures Exact(reserve) ==>
                && |stacks| == Min(|activeThreads|, MAXIMUM_THREADS)
                && forall t :: t in stacks ==> stacks[t].capacity > 0
      ensures Exact(reserve) ==> forall t :: t in stacks && t !in old(Surviving(activeThreads)) ==>
                stacks[t].capacity == FreshCapacity(activeThreads)
    {
      hide Sum, Grants, Exact, Budgeted, Distinct, InitialCapacity, Nonzero, Affordable, Short, Surviving, Contended,
        Spared;
      Evict(activeThreads);
      var threadCount := Min(|activeThreads|, MAXIMUM_THREADS);
      var initialCapacity := InitialCapacity(threadCount);
      ShareOut(activeThreads, threadCount, initialCapacity);
    }

    /** The eviction, in terms of what survives it. */
    method Evict(activeThreads: set<ThreadID>)
      requires Budgeted() && Distinct()
      modifies `stacks, `frameCapacity, `cachedStack
      ensures Budgeted() && Distinct() && stacks.Keys <= activeThreads && cachedStack == null
      ensures stacks.Keys == old(Surviving(activeThreads)).Keys <= old(stacks).Keys
      ensures stacks.Values <= old(stacks).Values
      ensures forall t :: t in stacks ==> stacks[t] == old(stacks[t]) && stacks[t].capacity > 0
      ensures |stacks| <= Min(|activeThreads|, MAXIMUM_THREADS) && frameCapacity <= MAXIMUM_FRAME_CAPACITY
      ensures old(Contended(activeThreads)) <==>
        Short(Min(|activeThreads|, MAXIMUM_THREADS) - |stacks|, FreshCapacity(activeThreads), frameCapacity)
    {
      hide Sum, Budgeted, Distinct, Short, FreshCapacity, Min;
      ghost var surviving := Surviving(activeThreads);
      cachedStack := null;
      EraseStale(activeThreads);
      assert Capacities() == surviving;
      assert stacks.Keys == surviving.Keys;
      Survivors(activeThreads);
    }

    /** Makes room for the threads that have no storage, if need be, and reserves theirs. */
    method ShareOut(activeThreads: set<ThreadID>, threadCount: nat, initialCapacity: nat)
      requires Grants(reserve) && Budgeted() && Distinct() && stacks.Keys <= activeThreads
      requires threadCount == Min(|activeThreads|, MAXIMUM_THREADS) && initialCapacity == InitialCapacity(threadCount)
      requires |stacks| <= threadCount && frameCapacity <= MAXIMUM_FRAME_CAPACITY
      requires forall t :: t in stacks ==> stacks[t].capacity > 0
      modifies `stacks, `frameCapacity, stacks.Values
      ensures Budgeted() && Distinct()
      ensures stacks.Keys <= activeThreads
      ensures forall t :: t in old(stacks) ==>
                && t in stacks && stacks[t] == old(stacks[t])
                && Spared(Short(threadCount - |old(stacks)|, initialCapacity, old(frameCapacity)), initialCapacity,
                          old((stacks[t].capacity, stacks[t].frames)), (stacks[t].capacity, stacks[t].frames))
      ensures forall t :: t in stacks && t !in old(stacks) ==> fresh(stacks[t]) && stacks[t].frames == []
      ensures Exact(reserve) ==>
                && |stacks| == threadCount
                && forall t :: t in stacks ==>
                     stacks[t].capacity > 0 && (t !in old(stacks) ==> stacks[t].capacity == initialCapacity)
    {
      hide Sum, Grants, Exact, Budgeted, Distinct, InitialCapacity, Nonzero, Affordable;
      var missingThreads: nat := threadCount - |stacks|;
      if missingThreads * initialCapacity > MAXIMUM_FRAME_CAPACITY - frameCapacity {
        Reclaim(initialCapacity);
        ReclaimedIsAffordable(initialCapacity, threadCount);
      } else {
        KeptIsAffordable(initialCapacity, threadCount);
      }
      Provision(activeThreads, initialCapacity);
    }

    lemma Survivors(activeThreads: set<ThreadID>)
      requires Budgeted() && stacks.Keys <= activeThreads
      ensures |stacks| <= Min(|activeThreads|, MAXIMUM_THREADS)
      ensures |stacks| == |Capacities()| && frameCapacity == Sum(Capacities()) <= MAXIMUM_FRAME_CAPACITY
    {
      assert Capacities().Keys == stacks.Keys;
      SubsetIsSmaller(stacks.Keys, activeThreads);
    }

    lemma KeptIsAffordable(initialCapacity: nat, n: nat)
      requires Budgeted() && forall t :: t in stacks ==> stacks[t].capacity > 0
      requires |stacks| <= n && (n - |stacks|) * initialCapacity <= MAXIMUM_FRAME_CAPACITY - frameCapacity
      ensures Affordable(Capacities(), frameCapacity, initialCapacity, n)
    {
      assert Provisioned() == stacks.Keys;
    }

    lemma ReclaimedIsAffordable(initialCapacity: nat, n: nat)
      requires Budgeted() && forall t :: t in stacks ==> stacks[t].capacity <= initialCapacity
      requires initialCapacity * n <= MAXIMUM_FRAME_CAPACITY
      ensures Affordable(Capacities(), frameCapacity, initialCapacity, n)
    {
      hide Sum, Nonzero;
      SumBound(Capacities(), initialCapacity);
      Distribute(initialCapacity, n, |Provisioned()|);
    }

    method Reset()
      requires Valid()
      modifies stacks.Values`frames
      ensures Valid() && forall t :: t in stacks ==> stacks[t].frames == []
    {
      hide Sum, Grants;
      var todo := stacks.Keys;
      while todo != {}
        invariant todo <= stacks.Keys
        invariant forall t :: t in stacks ==>
                    stacks[t].frames == (if t in todo then old(stacks[t].frames) else [])
        decreases |todo|
      {
        var t :| t in todo;
        todo := todo - {t};
        stacks[t].frames := [];
      }
      assert Capacities() == old(Capacities());
    }

    method Clear()
      requires Grants(reserve)
      modifies this
      ensures Valid() && stacks == map[] && frameCapacity == 0 && cachedStack == null
    {
      stacks, frameCapacity, cachedStack := map[], 0, null;
      assert Capacities() == map[];
    }

    /**
     * The stack walker's frames, in the order they arrive. Every thread keeps the first frames it was sent;
     * with exact reservation it loses the others only once its vector or the whole budget is used up.
     */
    method CaptureFrames(deliveries: seq<Delivery>)
      requires Valid() && forall t :: t in stacks ==> stacks[t].frames == []
      modifies this`frameCapacity, this`cachedThread, this`cachedStack, stacks.Values
      ensures Valid()
      ensures forall t :: t in stacks ==> IsSubsequence(stacks[t].frames, FramesOf(t, deliveries))
      ensures Exact(reserve) ==> forall t :: t in stacks ==>
                && stacks[t].frames <= FramesOf(t, deliveries)
                && (stacks[t].frames != FramesOf(t, deliveries) ==> Full(t))
    {
      hide Sum, Grants, Exact, Budgeted, Distinct, Full, IsSubsequence, Kept, FramesOf;
      NothingDeliveredYet();
      for i := 0 to |deliveries|
        invariant Valid()
        invariant forall t :: t in stacks ==>
                    Kept(stacks[t].frames, FramesOf(t, deliveries[..i]), Full(t), Exact(reserve))
      {
        var (threadId, frame) := deliveries[i];
        label before:
        var recorded := RecordFrame(threadId, frame);
        forall t | t in stacks
          ensures Kept(stacks[t].frames, FramesOf(t, deliveries[..i + 1]), Full(t), Exact(reserve))
        {
          FramesOfStep(t, deliveries, i);
          if t == threadId {
            KeptStep(old@before(stacks[t].frames), FramesOf(t, deliveries[..i]), old@before(Full(t)), Exact(reserve),
                     frame, recorded, Full(t));
            assert stacks[t].frames == if recorded then old@before(stacks[t].frames) + [frame]
                                       else old@before(stacks[t].frames);
          } else {
            assert stacks[t].frames == old@before(stacks[t].frames);
            KeptElsewhere(stacks[t].frames, FramesOf(t, deliveries[..i]), old@before(Full(t)), Exact(reserve), Full(t));
            assert FramesOf(t, deliveries[..i + 1]) == FramesOf(t, deliveries[..i]);
          }
        }
      }
      assert deliveries[..|deliveries|] == deliveries;
      Unfold(deliveries);
    }

    /**
     * CaptureFunctionIdentifiersForThreads. A run of the stack walker, if there is one, is the frames it
     * delivers; once shutdown is requested no further frame is recorded and nothing of the capture stays.
     */
    method CaptureFunctionIdentifiers(activeThreads: set<ThreadID>, hasStackWalker: bool, deliveries: seq<Delivery>,
          shutdown: Shutdown) returns (captured: bool)
      requires Valid() && forall t :: t in stacks ==> stacks[t].frames == []
      modifies this, stacks.Values
      ensures Valid()
      ensures captured <==> shutdown.Never? || (shutdown.Behind? && !hasStackWalker)
      ensures !captured ==> stacks == map[] && frameCapacity == 0
      ensures captured ==> stacks.Keys <= activeThreads
      ensures captured && Exact(reserve) ==> |stacks| == Min(|activeThreads|, MAXIMUM_THREADS)
      ensures captured ==> forall t :: t in stacks ==>
        IsSubsequence(stacks[t].frames, if hasStackWalker then FramesOf(t, deliveries) else [])
      ensures captured && hasStackWalker && Exact(reserve) ==> forall t :: t in stacks ==>
        stacks[t].frames <= FramesOf(t, deliveries) && (stacks[t].frames != FramesOf(t, deliveries) ==> Full(t))
    {
      hide Sum, Grants, Exact, Budgeted, Distinct, Full, IsSubsequence, FramesOf, Contended, FreshCapacity;
      if shutdown.AtStart? {
        Clear();
        return false;
      }
      PrepareForCapture(activeThreads);
      captured := true;
      if hasStackWalker {
        if shutdown.Behind? {
          CaptureFrames(deliveries[..Min(shutdown.frames, |deliveries|)]);
          Clear();
          return false;
        }
        CaptureFrames(deliveries);
      } else {
        NothingToRecord();
      }
    }

    lemma NothingToRecord()
      requires forall t :: t in stacks ==> stacks[t].frames == []
      ensures forall t :: t in stacks ==> IsSubsequence(stacks[t].frames, [])
    {
    }

    lemma NothingDeliveredYet()
      requires forall t :: t in stacks ==> stacks[t].frames == []
      ensures forall t :: t in stacks ==> Kept(stacks[t].frames, FramesOf(t, []), Full(t), Exact(reserve))
    {
    }

    lemma Unfold(deliveries: seq<Delivery>)
      requires forall t :: t in stacks ==> Kept(stacks[t].frames, FramesOf(t, deliveries), Full(t), Exact(reserve))
      ensures forall t :: t in stacks ==> IsSubsequence(stacks[t].frames, FramesOf(t, deliveries))
      ensures Exact(reserve) ==> forall t :: t in stacks ==>
                && stacks[t].frames <= FramesOf(t, deliveries)
                && (stacks[t].frames != FramesOf(t, deliveries) ==> Full(t))
    {
      hide IsSubsequence, FramesOf, Full;
    }
  }
}
