/**
 The sharded lock as a protocol. An operation locks the shard of one key, the shards of a commit's keys or all shards,
 always in increasing order, touches the TTL maps of those shards while it runs, and releases in reverse. Compaction
 additionally waits, with every shard held, for an answer of the log flusher.
 */
module ShardLock {
  import opened Bytes

  const NUM_SHARDS: nat := 64

  /** The shard function: any function of the key into the shards. */
  type Sharding = Key -> nat

  ghost predicate InRange(f: Sharding) { forall k :: f(k) < NUM_SHARDS }

  ghost predicate Increasing(xs: seq<nat>) {
    forall i, j :: 0 <= i < j < |xs| ==> xs[i] < xs[j]
  }

  // ---- Which shards an operation locks ----

  datatype Operation =
    | Read(key: Key)              // Get, TTL, GetBlobMeta
    | Write(key: Key)             // Set, SetEX, SetBlob, Delete, a replicated entry
    | Commit(keys: seq<Key>)      // a root commit
    | Evict
    | Compact

  /** The keys whose TTL map the operation touches. */
  predicate Touches(op: Operation, key: Key) {
    match op
    case Read(k) => key == k
    case Write(k) => key == k
    case Commit(keys) => key in keys
    case Evict => true
    case Compact => true
  }

  /** The shards below `n` that some key falls into, in increasing order. */
  function ShardsBelow(f: Sharding, keys: seq<Key>, n: nat): seq<nat> {
    if n == 0 then []
    else ShardsBelow(f, keys, n - 1) + if (exists i :: 0 <= i < |keys| && f(keys[i]) == n - 1) then [n - 1] else []
  }

  function FirstShards(n: nat): seq<nat> { seq(n, i => i) }

  /** What the operation locks, in order. */
  function Shards(f: Sharding, op: Operation): seq<nat> {
    match op
    case Read(k) => [f(k)]
    case Write(k) => [f(k)]
    case Commit(keys) => ShardsBelow(f, keys, NUM_SHARDS)
    case Evict => FirstShards(NUM_SHARDS)
    case Compact => FirstShards(NUM_SHARDS)
  }

  predicate Shared(op: Operation) { op.Read? }

  lemma {:induction false} ShardsBelowOrder(f: Sharding, keys: seq<Key>, n: nat)
    ensures Increasing(ShardsBelow(f, keys, n))
    ensures forall x :: x in ShardsBelow(f, keys, n) <==> x < n && exists i :: 0 <= i < |keys| && f(keys[i]) == x
  {
    if n > 0 {
      ShardsBelowOrder(f, keys, n - 1);
      var below := ShardsBelow(f, keys, n - 1);
      forall i | 0 <= i < |below| ensures below[i] < n - 1 {
        assert below[i] in below;
      }
    }
  }

  /** Every operation locks in increasing order, and covers every key it touches. */
  lemma ShardsCover(f: Sharding, op: Operation)
    requires InRange(f)
    ensures Increasing(Shards(f, op)) && forall x :: x in Shards(f, op) ==> x < NUM_SHARDS
    ensures forall k :: Touches(op, k) ==> f(k) in Shards(f, op)
  {
    match op
    case Read(_) =>
    case Write(_) =>
    case Commit(keys) => CommitCovers(f, keys);
    case Evict => AllCovered(f);
    case Compact => AllCovered(f);
  }

  /** It locks no more than that: eviction and compaction all 64 shards, the others those of their keys alone. */
  lemma ShardsExact(f: Sharding, op: Operation, x: nat)
    requires InRange(f)
    ensures x in Shards(f, op) <==> x < 64 && (op.Evict? || op.Compact? || exists k :: Touches(op, k) && f(k) == x)
  {
    match op
    case Read(k) => assert Touches(op, k);
    case Write(k) => assert Touches(op, k);
    case Commit(keys) =>
      ShardsBelowOrder(f, keys, NUM_SHARDS);
      if x in Shards(f, op) {
        var i :| 0 <= i < |keys| && f(keys[i]) == x;
        assert Touches(op, keys[i]);
      }
      if k :| Touches(op, k) && f(k) == x {
        var i :| 0 <= i < |keys| && keys[i] == k;
        assert f(keys[i]) == x;
      }
    case Evict => assert x < 64 ==> FirstShards(NUM_SHARDS)[x] == x;
    case Compact => assert x < 64 ==> FirstShards(NUM_SHARDS)[x] == x;
  }

  lemma CommitCovers(f: Sharding, keys: seq<Key>)
    requires InRange(f)
    ensures var xs := ShardsBelow(f, keys, NUM_SHARDS);
            Increasing(xs) && (forall x :: x in xs ==> x < NUM_SHARDS) && forall k :: k in keys ==> f(k) in xs
  {
    ShardsBelowOrder(f, keys, NUM_SHARDS);
    forall k | k in keys ensures f(k) in ShardsBelow(f, keys, NUM_SHARDS) {
      var i :| 0 <= i < |keys| && keys[i] == k;
      assert f(keys[i]) == f(k);
    }
  }

  lemma AllCovered(f: Sharding)
    requires InRange(f)
    ensures forall k :: f(k) in FirstShards(NUM_SHARDS)
  {
    forall k ensures f(k) in FirstShards(NUM_SHARDS) {
      assert FirstShards(NUM_SHARDS)[f(k)] == f(k);
    }
  }

  function Insert(xs: seq<nat>, x: nat): seq<nat> {
    if xs == [] then [x]
    else if x <= xs[0] then [x] + xs
    else [xs[0]] + Insert(xs[1..], x)
  }

  lemma {:induction false} InsertSorted(xs: seq<nat>, x: nat)
    requires Increasing(xs) && x !in xs
    ensures Increasing(Insert(xs, x))
    ensures forall y :: y in Insert(xs, x) <==> y == x || y in xs
  {
    if xs != [] && x > xs[0] {
      InsertSorted(xs[1..], x);
      var rest := Insert(xs[1..], x);
      assert Insert(xs, x) == [xs[0]] + rest;
      assert forall y :: y in xs <==> y == xs[0] || y in xs[1..];
      forall i | 0 <= i < |rest| ensures xs[0] < rest[i] {
        assert rest[i] in rest;
      }
    }
  }

  /** An increasing sequence is determined by its members. */
  lemma {:induction false} SameMembers(a: seq<nat>, b: seq<nat>)
    requires Increasing(a) && Increasing(b) && forall x :: x in a <==> x in b
    ensures a == b
    decreases |a|
  {
    assert a != [] ==> a[0] in a;
    assert b != [] ==> b[0] in b;
    if a != [] {
      var j :| 0 <= j < |b| && b[j] == a[0];
      var i :| 0 <= i < |a| && a[i] == b[0];
      assert i == 0 && j == 0;
      assert a == [a[0]] + a[1..] && b == [b[0]] + b[1..];
      forall x ensures x in a[1..] <==> x in b[1..] {
        assert x in a <==> x == a[0] || x in a[1..];
        assert x in b <==> x == b[0] || x in b[1..];
      }
      SameMembers(a[1..], b[1..]);
    }
  }

  /** Gathers the keys' shards in a set, then sorts them: the order in which a commit locks. */
  method LockOrder(f: Sharding, keys: seq<Key>) returns (idxs: seq<nat>)
    requires InRange(f)
    ensures idxs == Shards(f, Commit(keys))
    ensures Increasing(idxs) && forall x :: x in idxs <==> exists i :: 0 <= i < |keys| && f(keys[i]) == x
  {
    var seen: set<nat> := {};
    for n := 0 to |keys|
      invariant forall x :: x in seen <==> exists i :: 0 <= i < n && f(keys[i]) == x
    {
      seen := seen + {f(keys[n])};
    }
    idxs := SortedShards(seen);
    ShardsBelowOrder(f, keys, NUM_SHARDS);
    SameMembers(idxs, ShardsBelow(f, keys, NUM_SHARDS));
  }

  method SortedShards(seen: set<nat>) returns (idxs: seq<nat>)
    ensures Increasing(idxs) && forall i :: i in idxs <==> i in seen
  {
    idxs := [];
    var todo := seen;
    while todo != {}
      invariant Increasing(idxs)
      invariant forall i :: i in seen <==> i in idxs || i in todo
      invariant forall i :: i in idxs ==> i !in todo
      decreases todo
    {
      var i :| i in todo;
      InsertSorted(idxs, i);
      idxs := Insert(idxs, i);
      todo := todo - {i};
    }
  }

  /** Global operations take every shard. */
  method LockAllOrder(f: Sharding) returns (idxs: seq<nat>)
    ensures idxs == Shards(f, Evict) == Shards(f, Compact)
    ensures |idxs| == 64 && forall i :: 0 <= i < 64 ==> idxs[i] == i
  {
    idxs := [];
    for i := 0 to NUM_SHARDS
      invariant idxs == FirstShards(i)
    {
      idxs := idxs + [i];
    }
  }

  // ---- The protocol ----

  datatype Phase = Idle | Acquiring | Running | Awaiting | Releasing

  /** A process holds the first `held` shards of its operation. */
  datatype Proc = Proc(op: Operation, held: nat, phase: Phase)

  /** `flusherUp` turns false when the flusher has answered everything in its queue and exited. */
  datatype State = State(procs: seq<Proc>, flusherUp: bool)

  ghost predicate WellFormed(f: Sharding, p: Proc) {
    && p.held <= |Shards(f, p.op)|
    && (p.phase.Idle? ==> p.held == 0)
    && (p.phase.Acquiring? ==> p.held < |Shards(f, p.op)|)
    && (p.phase.Running? || p.phase.Awaiting? ==> p.held == |Shards(f, p.op)|)
    && (p.phase.Awaiting? ==> p.op.Compact?)
    && (p.phase.Releasing? ==> p.held > 0)
  }

  predicate Holds(f: Sharding, p: Proc, shard: nat) {
    p.held <= |Shards(f, p.op)| && shard in Shards(f, p.op)[..p.held]
  }

  /** Two processes hold one shard only as readers. */
  ghost predicate Compatible(f: Sharding, p: Proc, q: Proc) {
    forall i :: Holds(f, p, i) && Holds(f, q, i) ==> Shared(p.op) && Shared(q.op)
  }

  ghost predicate Inv(f: Sharding, s: State) {
    && InRange(f)
    && (forall a :: 0 <= a < |s.procs| ==> WellFormed(f, s.procs[a]))
    && (forall a, b :: 0 <= a < |s.procs| && 0 <= b < |s.procs| && a != b ==> Compatible(f, s.procs[a], s.procs[b]))
  }

  predicate Wants(f: Sharding, p: Proc, shard: nat) {
    p.phase.Acquiring? && p.held < |Shards(f, p.op)| && Shards(f, p.op)[p.held] == shard
  }

  /** Nobody holds the next shard in a way that excludes the process. */
  ghost predicate Admissible(f: Sharding, s: State, a: nat)
    requires a < |s.procs|
  {
    forall b, shard :: 0 <= b < |s.procs| && b != a && Wants(f, s.procs[a], shard) && Holds(f, s.procs[b], shard) ==>
      Shared(s.procs[a].op) && Shared(s.procs[b].op)
  }

  /** A writer is in line for the shard a reader wants. */
  ghost predicate Queued(f: Sharding, s: State, a: nat)
    requires a < |s.procs|
  {
    Shared(s.procs[a].op) && exists b, shard :: 0 <= b < |s.procs| && b != a && !Shared(s.procs[b].op)
                                               && Wants(f, s.procs[a], shard) && Wants(f, s.procs[b], shard)
  }

  /**
   Steps that may happen. A reader may be admitted while a writer is in line, as it is when it was waiting before that
   writer's predecessor unlocked.
   */
  ghost predicate MayStep(f: Sharding, s: State, a: nat)
    requires a < |s.procs|
  {
    match s.procs[a].phase
    case Idle => false
    case Acquiring => Admissible(f, s, a)
    case Running => true
    case Awaiting => s.flusherUp
    case Releasing => true
  }

  /** Steps that are sure to be possible: a reader also waits for every writer in line. */
  ghost predicate CanStep(f: Sharding, s: State, a: nat)
    requires a < |s.procs|
  {
    MayStep(f, s, a) && !Queued(f, s, a)
  }

  function Advance(f: Sharding, p: Proc): Proc
    requires p.phase.Releasing? ==> p.held > 0
  {
    match p.phase
    case Idle => p
    case Acquiring => p.(held := p.held + 1, phase := if p.held + 1 == |Shards(f, p.op)| then Running else Acquiring)
    case Running => p.(phase := if p.op.Compact? then Awaiting else if p.held == 0 then Idle else Releasing)
    case Awaiting => p.(phase := Releasing)
    case Releasing => p.(held := p.held - 1, phase := if p.held == 1 then Idle else Releasing)
  }

  datatype Step = Start(a: nat, op: Operation) | Go(a: nat) | FlusherExits

  ghost predicate Enabled(f: Sharding, s: State, step: Step) {
    match step
    case Start(a, _) => a < |s.procs| && s.procs[a].phase.Idle?
    case Go(a) => a < |s.procs| && MayStep(f, s, a)
    case FlusherExits => s.flusherUp && forall a :: 0 <= a < |s.procs| ==> !s.procs[a].phase.Awaiting?
  }

  ghost function Do(f: Sharding, s: State, step: Step): State
    requires Inv(f, s) && Enabled(f, s, step)
  {
    match step
    case Start(a, op) =>
      s.(procs := s.procs[a := Proc(op, 0, if Shards(f, op) == [] then Running else Acquiring)])
    case Go(a) => s.(procs := s.procs[a := Advance(f, s.procs[a])])
    case FlusherExits => s.(flusherUp := false)
  }

  lemma AdvanceHolds(f: Sharding, p: Proc)
    requires WellFormed(f, p) && !p.phase.Idle?
    ensures WellFormed(f, Advance(f, p)) && Advance(f, p).op == p.op
    ensures forall i :: Holds(f, Advance(f, p), i) ==> Holds(f, p, i) || Wants(f, p, i)
  {
    var xs, p' := Shards(f, p.op), Advance(f, p);
    if p.phase.Acquiring? {
      assert xs[..p'.held] == xs[..p.held] + [xs[p.held]];
    } else if p.phase.Releasing? {
      assert xs[..p.held] == xs[..p'.held] + [xs[p'.held]];
    }
  }

  lemma StepInv(f: Sharding, s: State, step: Step)
    requires Inv(f, s) && Enabled(f, s, step)
    ensures Inv(f, Do(f, s, step))
  {
    var s' := Do(f, s, step);
    if !step.FlusherExits? {
      if step.Go? {
        AdvanceHolds(f, s.procs[step.a]);
      }
      forall b | 0 <= b < |s.procs| && b != step.a
        ensures Compatible(f, s'.procs[step.a], s'.procs[b]) && Compatible(f, s'.procs[b], s'.procs[step.a])
      {
        StillCompatible(f, s, step, b);
      }
    }
  }

  lemma StillCompatible(f: Sharding, s: State, step: Step, b: nat)
    requires Inv(f, s) && Enabled(f, s, step) && !step.FlusherExits? && b < |s.procs| && b != step.a
    ensures Compatible(f, Do(f, s, step).procs[step.a], s.procs[b])
  {
    var p := s.procs[step.a];
    assert Compatible(f, p, s.procs[b]);
    if step.Go? {
      AdvanceHolds(f, p);
    }
  }

  // ---- Runs ----

  ghost predicate Legal(f: Sharding, s: State, steps: seq<Step>)
    requires Inv(f, s)
    decreases |steps|
  {
    steps == [] || (Enabled(f, s, steps[0]) && (StepInv(f, s, steps[0]); Legal(f, Do(f, s, steps[0]), steps[1..])))
  }

  ghost function Exec(f: Sharding, s: State, steps: seq<Step>): (s': State)
    requires Inv(f, s) && Legal(f, s, steps)
    ensures Inv(f, s')
    decreases |steps|
  {
    if steps == [] then s else StepInv(f, s, steps[0]); Exec(f, Do(f, s, steps[0]), steps[1..])
  }

  ghost function AllIdle(f: Sharding, n: nat): (s: State)
    requires InRange(f)
    ensures Inv(f, s) && |s.procs| == n
  {
    State(seq(n, _ => Proc(Commit([]), 0, Idle)), true)
  }

  /** The states some run of `n` processes reaches. */
  ghost predicate Reachable(f: Sharding, n: nat, s: State) {
    InRange(f) && exists steps :: Legal(f, AllIdle(f, n), steps) && s == Exec(f, AllIdle(f, n), steps)
  }

  lemma ReachableInv(f: Sharding, n: nat, s: State)
    requires Reachable(f, n, s)
    ensures Inv(f, s)
  {
  }

  // ---- Accesses are covered and exclusive ----

  /** The operation is at work on the TTL maps. */
  predicate AtWork(p: Proc) { p.phase.Running? || p.phase.Awaiting? }

  /** In every reachable state an operation at work holds the shard of every key it touches. */
  lemma AccessIsCovered(f: Sharding, n: nat, s: State, a: nat, key: Key)
    requires Reachable(f, n, s) && a < |s.procs| && AtWork(s.procs[a]) && Touches(s.procs[a].op, key)
    ensures Holds(f, s.procs[a], f(key))
  {
    ReachableInv(f, n, s);
    var xs := Shards(f, s.procs[a].op);
    ShardsCover(f, s.procs[a].op);
    assert xs[..|xs|] == xs;
  }

  /** In every reachable state, two operations at work on keys of one shard, the same key or not, both only read. */
  lemma AccessIsExclusive(f: Sharding, n: nat, s: State, a: nat, b: nat, key: Key, other: Key)
    requires Reachable(f, n, s) && a < |s.procs| && b < |s.procs| && a != b
    requires AtWork(s.procs[a]) && Touches(s.procs[a].op, key)
    requires AtWork(s.procs[b]) && Touches(s.procs[b].op, other) && f(other) == f(key)
    ensures s.procs[a].op.Read? && s.procs[b].op.Read?
  {
    ReachableInv(f, n, s);
    AccessIsCovered(f, n, s, a, key);
    AccessIsCovered(f, n, s, b, other);
    assert Compatible(f, s.procs[a], s.procs[b]);
  }

  /** A reader is kept out of its shard by writers alone, every other operation by whoever holds its next shard. */
  lemma AdmittedIff(f: Sharding, s: State, a: nat)
    requires Inv(f, s) && a < |s.procs| && s.procs[a].phase.Acquiring?
    ensures var next := Shards(f, s.procs[a].op)[s.procs[a].held];
            Enabled(f, s, Go(a)) <==>
            forall b :: 0 <= b < |s.procs| && b != a && Holds(f, s.procs[b], next) ==>
              s.procs[a].op.Read? && s.procs[b].op.Read?
  {
    var next := Shards(f, s.procs[a].op)[s.procs[a].held];
    assert Wants(f, s.procs[a], next);
  }

  // ---- Progress ----

  /** Acquiring in order: the next shard lies above everything held. */
  lemma NextAbove(f: Sharding, p: Proc, shard: nat)
    requires InRange(f) && WellFormed(f, p) && p.phase.Acquiring? && Holds(f, p, shard)
    ensures shard < Shards(f, p.op)[p.held] < NUM_SHARDS
  {
    var xs := Shards(f, p.op);
    ShardsCover(f, p.op);
    var i :| 0 <= i < p.held && xs[..p.held][i] == shard;
    assert xs[i] == shard && xs[p.held] in xs;
  }

  /** A compaction waits for an answer that will not come. */
  ghost predicate Stuck(s: State) {
    !s.flusherUp && exists a :: 0 <= a < |s.procs| && s.procs[a].phase.Awaiting?
  }

  lemma Blocker(f: Sharding, s: State, a: nat) returns (b: nat)
    requires Inv(f, s) && a < |s.procs| && s.procs[a].phase.Acquiring? && !CanStep(f, s, a)
    ensures b < |s.procs| && b != a
    ensures var shard := Shards(f, s.procs[a].op)[s.procs[a].held];
            || Holds(f, s.procs[b], shard)
            || (Shared(s.procs[a].op) && !Shared(s.procs[b].op) && Wants(f, s.procs[b], shard))
  {
    if !Admissible(f, s, a) {
      var c, shard :| 0 <= c < |s.procs| && c != a && Wants(f, s.procs[a], shard) && Holds(f, s.procs[c], shard)
                      && !(Shared(s.procs[a].op) && Shared(s.procs[c].op));
      b := c;
    } else {
      var c, shard :| 0 <= c < |s.procs| && c != a && !Shared(s.procs[c].op)
                      && Wants(f, s.procs[a], shard) && Wants(f, s.procs[c], shard);
      b := c;
    }
  }

  /** Follow who waits for whom: each hop goes to a higher shard, so it ends at a process that can step. */
  lemma {:induction false} SomeoneAhead(f: Sharding, s: State, a: nat) returns (b: nat)
    requires Inv(f, s) && !Stuck(s) && a < |s.procs| && s.procs[a].phase.Acquiring?
    ensures b < |s.procs| && CanStep(f, s, b) && Shards(f, s.procs[b].op) != []
    decreases NUM_SHARDS - Shards(f, s.procs[a].op)[s.procs[a].held], Shared(s.procs[a].op)
  {
    if CanStep(f, s, a) {
      b := a;
    } else {
      var c := Blocker(f, s, a);
      ShardsCover(f, s.procs[a].op);
      assert Shards(f, s.procs[a].op)[s.procs[a].held] in Shards(f, s.procs[a].op);
      if !s.procs[c].phase.Acquiring? {
        b := c;
      } else {
        var shard := Shards(f, s.procs[a].op)[s.procs[a].held];
        if Holds(f, s.procs[c], shard) {
          NextAbove(f, s.procs[c], shard);
        }
        b := SomeoneAhead(f, s, c);
      }
    }
  }

  /** A stuck compaction holds every shard, so no operation that needs one can step. */
  lemma StuckBlocksAll(f: Sharding, s: State, b: nat)
    requires Inv(f, s) && Stuck(s) && b < |s.procs| && Shards(f, s.procs[b].op) != []
    ensures !CanStep(f, s, b)
  {
    var c :| 0 <= c < |s.procs| && s.procs[c].phase.Awaiting?;
    if b != c && CanStep(f, s, b) {
      var p, xs := s.procs[b], Shards(f, s.procs[b].op);
      ShardsCover(f, p.op);
      assert Compatible(f, p, s.procs[c]);
      var shard := if p.phase.Acquiring? then xs[p.held] else xs[0];
      assert shard in xs;
      assert FirstShards(NUM_SHARDS)[shard] == shard && FirstShards(NUM_SHARDS)[..NUM_SHARDS] == FirstShards(NUM_SHARDS);
      assert Holds(f, s.procs[c], shard);
      if !p.phase.Acquiring? {
        assert xs[..p.held][0] == shard;
        assert Holds(f, p, shard);
      } else {
        assert Wants(f, p, shard);
      }
      assert false;
    }
  }

  /**
   In every reachable state with an unfinished operation that needs a shard: some such operation can step, if and only
   if no compaction waits for a flusher that has exited.
   */
  lemma ProgressIff(f: Sharding, n: nat, s: State, a: nat)
    requires Reachable(f, n, s) && a < |s.procs| && !s.procs[a].phase.Idle? && Shards(f, s.procs[a].op) != []
    ensures (exists b :: 0 <= b < |s.procs| && Shards(f, s.procs[b].op) != [] && CanStep(f, s, b)) <==> !Stuck(s)
  {
    ReachableInv(f, n, s);
    if Stuck(s) {
      forall b | 0 <= b < |s.procs| && Shards(f, s.procs[b].op) != [] ensures !CanStep(f, s, b) {
        StuckBlocksAll(f, s, b);
      }
    } else if s.procs[a].phase.Acquiring? {
      var b := SomeoneAhead(f, s, a);
    } else {
      assert CanStep(f, s, a);
    }
  }

  /** Such a state is real: a compaction starts to wait after the flusher has exited. */
  lemma CompactionCanHang(f: Sharding)
    requires InRange(f)
    ensures exists s :: Reachable(f, 1, s) && Stuck(s)
  {
    var s0 := AllIdle(f, 1);
    var s1, steps := CompactionLocks(f, NUM_SHARDS);
    Extend(f, s0, steps, FlusherExits);
    var s2 := Do(f, s1, FlusherExits);
    Extend(f, s0, steps + [FlusherExits], Go(0));
    var s3 := Do(f, s2, Go(0));
    assert s3.procs[0].phase.Awaiting?;
    assert Reachable(f, 1, s3);
  }

  /** One process alone locks the first `k` shards for a compaction. */
  lemma {:induction false} CompactionLocks(f: Sharding, k: nat) returns (s: State, steps: seq<Step>)
    requires InRange(f) && k <= NUM_SHARDS
    ensures Legal(f, AllIdle(f, 1), steps) && s == Exec(f, AllIdle(f, 1), steps)
    ensures s == State([Proc(Compact, k, if k == NUM_SHARDS then Running else Acquiring)], true)
  {
    var s0 := AllIdle(f, 1);
    if k == 0 {
      Extend(f, s0, [], Start(0, Compact));
      steps := [] + [Start(0, Compact)];
      s := Do(f, s0, Start(0, Compact));
    } else {
      var s', steps' := CompactionLocks(f, k - 1);
      Extend(f, s0, steps', Go(0));
      steps := steps' + [Go(0)];
      s := Do(f, s', Go(0));
    }
  }

  lemma {:induction false} Extend(f: Sharding, s: State, steps: seq<Step>, step: Step)
    requires Inv(f, s) && Legal(f, s, steps) && Enabled(f, Exec(f, s, steps), step)
    ensures Legal(f, s, steps + [step]) && Exec(f, s, steps + [step]) == Do(f, Exec(f, s, steps), step)
    decreases |steps|
  {
    if steps == [] {
      assert steps + [step] == [step] && [step][1..] == [];
      StepInv(f, s, step);
    } else {
      assert (steps + [step])[1..] == steps[1..] + [step];
      StepInv(f, s, steps[0]);
      Extend(f, Do(f, s, steps[0]), steps[1..], step);
    }
  }
}
