/**
 Replication: a replica registers its queue, is sent a snapshot whose keys are read at different times while the primary
 keeps writing, and then the queue. The primary's writers are serialized: they update the index first and fan the same
 entries out later, those of one key in the same order. Messages go through an encoding of which nothing is assumed; the
 main results say exactly for which keys and values it does no harm.
 */
module Replication {
  import opened Bytes
  import opened Expiry
  import opened Transactions
  import Utf8

  /** Capacity of a replica's queue. */
  const QUEUE_CAP: nat := 4096

  datatype Phase = Unregistered | Registered | Scanning(now: int) | Sending

  /** `lost` holds the keys whose newest message the full queue refused. */
  datatype State = State(primary: View, toFan: seq<Write>, clock: int, phase: Phase,
                         queue: seq<Write>, scanned: iset<Key>, snapshot: seq<Write>,
                         replica: View, replicaClock: int, lost: set<Key>)

  /** The two hosts' clocks are unrelated; what either of them drops is lapsed for good from this time on. */
  function Horizon(s: State): int { if s.clock < s.replicaClock then s.replicaClock else s.clock }

  datatype Step =
    | Apply(w: Write)                           // index updated, message not yet sent
    | Fanout
    | Reorder(i: nat)                           // a commit sends its messages in an order of its own
    | Evict(now: int, gone: set<Key>)           // eviction or compaction drops lapsed keys, sending nothing
    | Register
    | StartScan
    | Scan(keys: iset<Key>, out: seq<Write>)    // the scan reads these keys now
    | EndScan
    | DeliverSnapshot
    | DeliverQueue
    | ReplicaEvict(now: int, gone: set<Key>)    // by the replica's own clock

  const NO_KEYS: iset<Key> := iset{}

  const INITIAL := State(map[], [], 0, Unregistered, [], NO_KEYS, [], map[], 0, {})

  /** The scan calls back once per live key of the group, in some order. */
  ghost predicate ListsLive(out: seq<Write>, primary: View, keys: iset<Key>, now: int) {
    && (forall k :: WriteEffect(out, k) ==
                    if k in keys && k in primary && !Lapsed(primary[k].expiresAt, now) then Becomes(primary[k]) else Keep)
    && Quotes(out, primary)
  }

  ghost predicate Enabled(s: State, step: Step) {
    match step
    case Apply(_) => true
    case Fanout => s.toFan != []
    case Reorder(i) => i + 1 < |s.toFan| && s.toFan[i].key != s.toFan[i + 1].key
    case Evict(now, gone) =>
      s.clock <= now && forall k :: k in gone && k in s.primary ==> Lapsed(s.primary[k].expiresAt, now)
    case Register => s.phase.Unregistered?
    case StartScan => s.phase.Registered?
    case Scan(keys, out) => s.phase.Scanning? && keys !! s.scanned && ListsLive(out, s.primary, keys, s.phase.now)
    case EndScan => s.phase.Scanning? && forall k: Key :: k in s.scanned
    case DeliverSnapshot => s.phase.Sending? && s.snapshot != []
    case DeliverQueue => s.phase.Sending? && s.snapshot == [] && s.queue != []
    case ReplicaEvict(now, gone) =>
      s.replicaClock <= now && forall k :: k in gone && k in s.replica ==> Lapsed(s.replica[k].expiresAt, now)
  }

  /** What a string becomes on its way into a message and out again. */
  type Recode = seq<Byte> -> seq<Byte>

  function Recoded(f: Recode, w: Write): Write {
    match w
    case Put(k, v, x) => Put(f(k), f(v), x)
    case Del(k) => Del(f(k))
  }

  ghost function Do(f: Recode, s: State, step: Step): State
    requires Enabled(s, step)
  {
    match step
    case Apply(w) => s.(primary := ApplyWrite(s.primary, w), toFan := s.toFan + [w])
    case Fanout =>
      var w := s.toFan[0];
      var s' := s.(toFan := s.toFan[1..]);
      if s.phase.Unregistered? then s'
      else if |s.queue| < QUEUE_CAP then s'.(queue := s.queue + [w], lost := s.lost - {w.key})
      else s'.(lost := s.lost + {w.key})
    case Reorder(i) => s.(toFan := s.toFan[i := s.toFan[i + 1]][i + 1 := s.toFan[i]])
    case Evict(now, gone) => s.(primary := s.primary - gone, clock := now)
    case Register => s.(phase := Registered)
    case StartScan => s.(phase := Scanning(s.clock))
    case Scan(keys, out) => s.(scanned := s.scanned + keys, snapshot := s.snapshot + out)
    case EndScan => s.(phase := Sending)
    case DeliverSnapshot => s.(replica := ApplyWrite(s.replica, Recoded(f, s.snapshot[0])), snapshot := s.snapshot[1..])
    case DeliverQueue => s.(replica := ApplyWrite(s.replica, Recoded(f, s.queue[0])), queue := s.queue[1..])
    case ReplicaEvict(now, gone) => s.(replica := s.replica - gone, replicaClock := now)
  }

  // ---- Invariant ----

  predicate Dead(x: Option<Item>, clock: int) { x.None? || Lapsed(x.value.expiresAt, clock) }

  /** From `clock` on, nobody can tell the two apart. */
  predicate Alike(a: Option<Item>, b: Option<Item>, clock: int) {
    a == b || (Dead(a, clock) && Dead(b, clock))
  }

  /** What is still on its way to the replica, in delivery order. */
  function InFlight(s: State): seq<Write> { s.queue + s.toFan }

  /** What the replica will hold of a key once everything on its way has arrived. */
  function Outcome(s: State, k: Key): Option<Item> {
    Combine(s.replica, k, WriteEffect(s.snapshot + InFlight(s), k))
  }

  ghost predicate FanMatches(s: State, k: Key) {
    !WriteEffect(s.toFan, k).Keep? ==> Alike(Combine(map[], k, WriteEffect(s.toFan, k)), Lookup(s.primary, k), s.clock)
  }

  ghost predicate Converges(s: State, k: Key) {
    k !in s.lost && (k in s.scanned || !WriteEffect(InFlight(s), k).Keep?) ==>
      Alike(Outcome(s, k), Lookup(s.primary, k), Horizon(s))
  }

  ghost predicate Inv(s: State) {
    && (forall k :: FanMatches(s, k))
    && (s.phase.Unregistered? ==> s.queue == [] && s.lost == {})
    && (s.phase.Unregistered? || s.phase.Registered? ==> s.snapshot == [] && s.scanned == NO_KEYS)
    && (!s.phase.Sending? ==> s.replica == map[] && forall k :: k !in s.scanned ==> WriteEffect(s.snapshot, k).Keep?)
    && (s.phase.Scanning? ==> s.phase.now <= s.clock)
    && (s.phase.Sending? ==> forall k: Key :: k in s.scanned)
    && (!s.phase.Unregistered? ==> forall k :: Converges(s, k))
  }

  // ---- Messages the encoding leaves alone ----

  ghost predicate AllKept(f: Recode, ws: seq<Write>) {
    forall i :: 0 <= i < |ws| ==> Recoded(f, ws[i]) == ws[i]
  }

  /** Everything the primary holds or has on its way comes through unchanged. */
  ghost predicate Kept(f: Recode, s: State) {
    && (forall k :: k in s.primary ==> f(k) == k && f(s.primary[k].value) == s.primary[k].value)
    && AllKept(f, s.toFan) && AllKept(f, s.queue) && AllKept(f, s.snapshot)
  }

  /** The step writes nothing the encoding changes. */
  ghost predicate Harmless(f: Recode, step: Step) { step.Apply? ==> Recoded(f, step.w) == step.w }

  ghost predicate AllHarmless(f: Recode, steps: seq<Step>) { forall i :: 0 <= i < |steps| ==> Harmless(f, steps[i]) }

  lemma StepKept(f: Recode, s: State, step: Step)
    requires Kept(f, s) && Enabled(s, step) && Harmless(f, step)
    ensures Kept(f, Do(f, s, step))
  {
    if step.Scan? {
      assert AllKept(f, step.out);
    }
  }

  lemma {:induction false} EffectHead(w: Write, ws: seq<Write>, k: Key)
    ensures WriteEffect([w] + ws, k) == if WriteEffect(ws, k).Keep? then WriteEffect([w], k) else WriteEffect(ws, k)
  {
    WriteEffectConcat([w], ws, k);
  }

  /** The three stretches on the way to the replica: a later mention of a key decides. */
  lemma Stretches(s: State, k: Key)
    ensures WriteEffect(InFlight(s), k) ==
            if WriteEffect(s.toFan, k).Keep? then WriteEffect(s.queue, k) else WriteEffect(s.toFan, k)
    ensures WriteEffect(s.snapshot + InFlight(s), k) ==
            if WriteEffect(InFlight(s), k).Keep? then WriteEffect(s.snapshot, k) else WriteEffect(InFlight(s), k)
  {
    WriteEffectConcat(s.queue, s.toFan, k);
    WriteEffectConcat(s.snapshot, InFlight(s), k);
  }

  lemma ApplyInv(f: Recode, s: State, w: Write)
    requires Inv(s)
    ensures Inv(Do(f, s, Apply(w)))
  {
    var s' := Do(f, s, Apply(w));
    forall k ensures FanMatches(s', k) && (!s.phase.Unregistered? ==> Converges(s', k)) {
      Stretches(s, k);
      Stretches(s', k);
      WriteEffectConcat(s.toFan, [w], k);
      OneEffect(w, k);
      assert FanMatches(s, k) && (!s.phase.Unregistered? ==> Converges(s, k));
    }
  }

  lemma OneEffect(w: Write, k: Key)
    ensures WriteEffect([w], k) == if w.key != k then Keep else if w.Del? then Gone else Becomes(Item(w.value, Stamp(w.expiry)))
  {
    assert [w][..0] == [];
  }

  lemma FanoutAt(f: Recode, s: State, k: Key)
    requires Enabled(s, Fanout) && FanMatches(s, k) && (!s.phase.Unregistered? ==> Converges(s, k))
    ensures var s' := Do(f, s, Fanout); FanMatches(s', k) && (!s.phase.Unregistered? ==> Converges(s', k))
  {
    TailEffect(s, k);
    if !s.phase.Unregistered? {
      if |s.queue| < QUEUE_CAP {
        FanoutRoom(f, s, k);
      } else {
        FanoutFull(f, s, k);
      }
    }
  }

  /** The messages still to be sent, as a key sees them: the first one counts unless a later one mentions the key. */
  lemma TailEffect(s: State, k: Key)
    requires s.toFan != []
    ensures WriteEffect(s.toFan, k) ==
            if !WriteEffect(s.toFan[1..], k).Keep? then WriteEffect(s.toFan[1..], k)
            else if s.toFan[0].key != k then Keep else WriteEffect([s.toFan[0]], k)
    ensures s.toFan[0].key == k ==> !WriteEffect(s.toFan, k).Keep?
  {
    assert s.toFan == [s.toFan[0]] + s.toFan[1..];
    EffectHead(s.toFan[0], s.toFan[1..], k);
    OneEffect(s.toFan[0], k);
  }

  /** With room in the queue, nothing on its way changes; a key that was lost is made good. */
  lemma FanoutRoom(f: Recode, s: State, k: Key)
    requires Enabled(s, Fanout) && FanMatches(s, k) && Converges(s, k) && !s.phase.Unregistered? && |s.queue| < QUEUE_CAP
    ensures Converges(Do(f, s, Fanout), k)
  {
    var s' := Do(f, s, Fanout);
    assert s.toFan == [s.toFan[0]] + s.toFan[1..];
    assert InFlight(s') == InFlight(s);
    TailEffect(s, k);
    Stretches(s, k);
  }

  /** A full queue loses the message, and only its key is affected. */
  lemma FanoutFull(f: Recode, s: State, k: Key)
    requires Enabled(s, Fanout) && Converges(s, k) && !s.phase.Unregistered? && |s.queue| >= QUEUE_CAP
    ensures Converges(Do(f, s, Fanout), k)
  {
    var s' := Do(f, s, Fanout);
    TailEffect(s, k);
    Stretches(s, k);
    Stretches(s', k);
  }

  lemma FanoutInv(f: Recode, s: State)
    requires Inv(s) && Enabled(s, Fanout)
    ensures Inv(Do(f, s, Fanout))
  {
    var s' := Do(f, s, Fanout);
    forall k ensures FanMatches(s', k) && (!s.phase.Unregistered? ==> Converges(s', k)) {
      assert FanMatches(s, k) && (!s.phase.Unregistered? ==> Converges(s, k));
      FanoutAt(f, s, k);
    }
  }

  lemma EvictInv(f: Recode, s: State, now: int, gone: set<Key>)
    requires Inv(s) && Enabled(s, Evict(now, gone))
    ensures Inv(Do(f, s, Evict(now, gone)))
  {
    var s' := Do(f, s, Evict(now, gone));
    forall k ensures FanMatches(s', k) && (!s.phase.Unregistered? ==> Converges(s', k)) {
      assert FanMatches(s, k) && (!s.phase.Unregistered? ==> Converges(s, k));
    }
  }

  lemma RegisterInv(f: Recode, s: State)
    requires Inv(s) && Enabled(s, Register)
    ensures Inv(Do(f, s, Register))
  {
    var s' := Do(f, s, Register);
    forall k ensures FanMatches(s', k) && Converges(s', k) {
      Stretches(s', k);
      assert FanMatches(s, k);
    }
  }

  /** Reading some keys: what the queue already mentions will overwrite the reading; the rest is read as it is. */
  lemma ScanInv(f: Recode, s: State, keys: iset<Key>, out: seq<Write>)
    requires Inv(s) && Enabled(s, Scan(keys, out))
    ensures Inv(Do(f, s, Scan(keys, out)))
  {
    var s' := Do(f, s, Scan(keys, out));
    forall k ensures && FanMatches(s', k) && Converges(s', k)
                     && (k !in s'.scanned ==> WriteEffect(s'.snapshot, k).Keep?)
    {
      Stretches(s, k);
      Stretches(s', k);
      WriteEffectConcat(s.snapshot, out, k);
      assert FanMatches(s, k) && Converges(s, k);
    }
  }

  lemma DeliverInv(f: Recode, s: State, step: Step)
    requires Inv(s) && Kept(f, s) && Enabled(s, step) && (step.DeliverSnapshot? || step.DeliverQueue?)
    ensures Inv(Do(f, s, step))
  {
    var s' := Do(f, s, step);
    var w := if step.DeliverSnapshot? then s.snapshot[0] else s.queue[0];
    assert s'.replica == ApplyWrite(s.replica, w);
    if step.DeliverSnapshot? {
      HeadOut(s.snapshot, InFlight(s));
    } else {
      HeadOut(s.queue, s.toFan);
      NoneBefore(InFlight(s));
      NoneBefore(InFlight(s'));
    }
    forall k ensures FanMatches(s', k) && Converges(s', k) {
      assert FanMatches(s, k) && Converges(s, k);
      DeliverAt(s, s', w, k);
    }
  }

  lemma HeadOut(a: seq<Write>, b: seq<Write>)
    requires a != []
    ensures a + b == [a[0]] + (a[1..] + b)
  {
  }

  lemma NoneBefore(a: seq<Write>)
    ensures [] + a == a
  {
  }

  /** Applying the next message to the replica, which moves it from what is on its way to what is there. */
  lemma DeliverAt(s: State, s': State, w: Write, k: Key)
    requires s'.replica == ApplyWrite(s.replica, w) && s.snapshot + InFlight(s) == [w] + (s'.snapshot + InFlight(s'))
    requires s'.primary == s.primary && s'.lost == s.lost && s'.scanned == s.scanned && Horizon(s') == Horizon(s)
    requires Converges(s, k) && k in s.scanned
    ensures Converges(s', k)
  {
    EffectHead(w, s'.snapshot + InFlight(s'), k);
    OneEffect(w, k);
  }

  lemma ReplicaEvictInv(f: Recode, s: State, now: int, gone: set<Key>)
    requires Inv(s) && Enabled(s, ReplicaEvict(now, gone))
    ensures Inv(Do(f, s, ReplicaEvict(now, gone)))
  {
    var s' := Do(f, s, ReplicaEvict(now, gone));
    assert !s.phase.Sending? ==> s'.replica == map[];
    forall k ensures FanMatches(s', k) && (!s.phase.Unregistered? ==> Converges(s', k)) {
      assert FanMatches(s, k) && (!s.phase.Unregistered? ==> Converges(s, k));
    }
  }

  lemma StepInv(f: Recode, s: State, step: Step)
    requires Inv(s) && Kept(f, s) && Enabled(s, step) && Harmless(f, step)
    ensures Inv(Do(f, s, step)) && Kept(f, Do(f, s, step))
  {
    StepKept(f, s, step);
    match step
    case Reorder(i) => ReorderInv(f, s, i);
    case Apply(w) => ApplyInv(f, s, w);
    case Fanout => FanoutInv(f, s);
    case Evict(now, gone) => EvictInv(f, s, now, gone);
    case Register => RegisterInv(f, s);
    case StartScan => PhaseInv(f, s, step);
    case Scan(keys, out) => ScanInv(f, s, keys, out);
    case EndScan => PhaseInv(f, s, step);
    case DeliverSnapshot => DeliverInv(f, s, step);
    case DeliverQueue => DeliverInv(f, s, step);
    case ReplicaEvict(now, gone) => ReplicaEvictInv(f, s, now, gone);
  }

  /** Exchanging two messages of different keys changes what no key is told. */
  lemma SwapEffect(ws: seq<Write>, i: nat, k: Key)
    requires i + 1 < |ws| && ws[i].key != ws[i + 1].key
    ensures WriteEffect(ws[i := ws[i + 1]][i + 1 := ws[i]], k) == WriteEffect(ws, k)
  {
    var a, x, y, b := ws[..i], ws[i], ws[i + 1], ws[i + 2..];
    assert ws == a + ([x] + ([y] + b)) && ws[i := y][i + 1 := x] == a + ([y] + ([x] + b));
    WriteEffectConcat(a, [x] + ([y] + b), k);
    WriteEffectConcat(a, [y] + ([x] + b), k);
    EffectHead(x, [y] + b, k);
    EffectHead(y, b, k);
    EffectHead(y, [x] + b, k);
    EffectHead(x, b, k);
    OneEffect(x, k);
    OneEffect(y, k);
  }

  lemma ReorderInv(f: Recode, s: State, i: nat)
    requires Inv(s) && Enabled(s, Reorder(i))
    ensures Inv(Do(f, s, Reorder(i)))
  {
    var s' := Do(f, s, Reorder(i));
    forall k ensures FanMatches(s', k) && (!s.phase.Unregistered? ==> Converges(s', k)) {
      SwapEffect(s.toFan, i, k);
      Stretches(s, k);
      Stretches(s', k);
      assert FanMatches(s, k) && (!s.phase.Unregistered? ==> Converges(s, k));
    }
  }

  lemma PhaseInv(f: Recode, s: State, step: Step)
    requires Inv(s) && Enabled(s, step) && (step.StartScan? || step.EndScan?)
    ensures Inv(Do(f, s, step))
  {
    var s' := Do(f, s, step);
    forall k ensures FanMatches(s', k) && Converges(s', k) {
      assert FanMatches(s, k) && Converges(s, k);
    }
  }

  ghost predicate Legal(f: Recode, s: State, steps: seq<Step>)
    decreases |steps|
  {
    steps == [] || (Enabled(s, steps[0]) && Legal(f, Do(f, s, steps[0]), steps[1..]))
  }

  ghost function Exec(f: Recode, s: State, steps: seq<Step>): State
    requires Legal(f, s, steps)
    decreases |steps|
  {
    if steps == [] then s else Exec(f, Do(f, s, steps[0]), steps[1..])
  }

  lemma {:induction false} RunInv(f: Recode, s: State, steps: seq<Step>)
    requires Inv(s) && Kept(f, s) && Legal(f, s, steps) && AllHarmless(f, steps)
    ensures Inv(Exec(f, s, steps)) && Kept(f, Exec(f, s, steps))
    decreases |steps|
  {
    if steps != [] {
      StepInv(f, s, steps[0]);
      RunInv(f, Do(f, s, steps[0]), steps[1..]);
    }
  }

  /** Everything sent so far has arrived. */
  predicate Drained(s: State) { s.phase.Sending? && s.snapshot == [] && s.queue == [] && s.toFan == [] }

  function SeenAt(v: View, k: Key, t: int): Option<Item> {
    if k in v && !Lapsed(v[k].expiresAt, t) then Some(v[k]) else None
  }

  /** The replica shows, at every time from the later of the two clocks on, what the primary shows; lost keys aside. */
  ghost predicate Agrees(s: State) {
    forall k, t :: k !in s.lost && Horizon(s) <= t ==> SeenAt(s.replica, k, t) == SeenAt(s.primary, k, t)
  }

  lemma DrainedAgrees(s: State)
    requires Inv(s) && Drained(s)
    ensures Agrees(s)
  {
    assert s.snapshot + InFlight(s) == [];
    forall k, t | k !in s.lost && Horizon(s) <= t ensures SeenAt(s.replica, k, t) == SeenAt(s.primary, k, t) {
      assert Converges(s, k);
    }
  }

  /**
   However the fuzzy scan interleaves with the primary's writes and evictions: once drained, the replica shows what the
   primary shows, for every key whose newest message was not refused by a full queue, if every write of the run comes
   through the encoding unchanged.
   */
  lemma ReplicaConverges(f: Recode, steps: seq<Step>)
    requires Legal(f, INITIAL, steps) && Drained(Exec(f, INITIAL, steps)) && AllHarmless(f, steps)
    ensures Agrees(Exec(f, INITIAL, steps))
  {
    RunInv(f, INITIAL, steps);
    DrainedAgrees(Exec(f, INITIAL, steps));
  }

  // ---- Replicas that keep up ----

  /** Whenever a message is sent, the queue has room for it. */
  ghost predicate KeepsUp(f: Recode, s: State, steps: seq<Step>)
    decreases |steps|
  {
    steps == [] || (Enabled(s, steps[0]) ==> (steps[0].Fanout? ==> |s.queue| < QUEUE_CAP)
                                             && KeepsUp(f, Do(f, s, steps[0]), steps[1..]))
  }

  lemma {:induction false} NothingLost(f: Recode, s: State, steps: seq<Step>)
    requires Legal(f, s, steps) && KeepsUp(f, s, steps) && s.lost == {}
    ensures Exec(f, s, steps).lost == {}
    decreases |steps|
  {
    if steps != [] {
      NothingLost(f, Do(f, s, steps[0]), steps[1..]);
    }
  }

  /** A drained replica whose queue never was full agrees on every key. */
  lemma KeepingUpConverges(f: Recode, steps: seq<Step>, k: Key, t: int)
    requires Legal(f, INITIAL, steps) && Drained(Exec(f, INITIAL, steps)) && AllHarmless(f, steps)
    requires KeepsUp(f, INITIAL, steps) && Horizon(Exec(f, INITIAL, steps)) <= t
    ensures var s := Exec(f, INITIAL, steps); SeenAt(s.replica, k, t) == SeenAt(s.primary, k, t)
  {
    ReplicaConverges(f, steps);
    NothingLost(f, INITIAL, steps);
  }

  /** Eviction on either side drops the keys it names there and nothing else. */
  lemma EvictionsDrop(f: Recode, s: State, step: Step, k: Key)
    requires Enabled(s, step) && (step.Evict? || step.ReplicaEvict?)
    ensures var s' := Do(f, s, step);
            && Lookup(s'.primary, k) == (if step.Evict? && k in step.gone then None else Lookup(s.primary, k))
            && Lookup(s'.replica, k) == (if step.ReplicaEvict? && k in step.gone then None else Lookup(s.replica, k))
  {
  }

  // ---- For which writes replicas converge ----

  ghost predicate WriteOver(keys: iset<Key>, values: iset<Blob>, w: Write) {
    w.key in keys && (w.Put? ==> w.value in values)
  }

  ghost predicate RunOver(keys: iset<Key>, values: iset<Blob>, steps: seq<Step>) {
    forall i :: 0 <= i < |steps| && steps[i].Apply? ==> WriteOver(keys, values, steps[i].w)
  }

  ghost const ALL_KEYS: iset<Key> := iset k: Key | true

  /** A replica connects, scans an empty primary, and is ready. */
  function Connect(keys: iset<Key>): seq<Step> { [Register] + ([StartScan] + ([Scan(keys, [])] + [EndScan])) }

  lemma OneStep(f: Recode, s: State, step: Step, rest: seq<Step>)
    requires Enabled(s, step) && Legal(f, Do(f, s, step), rest)
    ensures Legal(f, s, [step] + rest) && Exec(f, s, [step] + rest) == Exec(f, Do(f, s, step), rest)
  {
    assert ([step] + rest)[0] == step && ([step] + rest)[1..] == rest;
  }

  lemma {:induction false} Concat(f: Recode, s: State, a: seq<Step>, b: seq<Step>)
    requires Legal(f, s, a) && Legal(f, Exec(f, s, a), b)
    ensures Legal(f, s, a + b) && Exec(f, s, a + b) == Exec(f, Exec(f, s, a), b)
    decreases |a|
  {
    if a == [] {
      assert a + b == b;
    } else {
      Concat(f, Do(f, s, a[0]), a[1..], b);
      assert (a + b)[1..] == a[1..] + b;
    }
  }

  lemma Last(f: Recode, s: State, step: Step)
    requires Enabled(s, step)
    ensures Legal(f, s, [step]) && Exec(f, s, [step]) == Do(f, s, step)
  {
    assert [step] + [] == [step];
    OneStep(f, s, step, []);
  }

  /** The state of a connected replica and an empty primary. */
  ghost function Connected(): State { INITIAL.(phase := Sending, scanned := ALL_KEYS) }

  lemma ConnectRuns(f: Recode)
    ensures Legal(f, INITIAL, Connect(ALL_KEYS)) && Exec(f, INITIAL, Connect(ALL_KEYS)) == Connected()
  {
    var s1 := INITIAL.(phase := Registered);
    var s2 := INITIAL.(phase := Scanning(0));
    var s3 := s2.(scanned := ALL_KEYS);
    assert NO_KEYS + ALL_KEYS == ALL_KEYS && s2.snapshot + [] == s2.snapshot;
    Last(f, s3, EndScan);
    OneStep(f, s2, Scan(ALL_KEYS, []), [EndScan]);
    OneStep(f, s1, StartScan, [Scan(ALL_KEYS, [])] + [EndScan]);
    OneStep(f, INITIAL, Register, [StartScan] + ([Scan(ALL_KEYS, [])] + [EndScan]));
  }

  /** One write, sent and delivered. */
  function SendOne(w: Write): seq<Step> { [Apply(w)] + ([Fanout] + [DeliverQueue]) }

  lemma SendOneRuns(f: Recode, w: Write)
    ensures Legal(f, Connected(), SendOne(w))
    ensures Exec(f, Connected(), SendOne(w)) ==
            Connected().(primary := ApplyWrite(map[], w), replica := ApplyWrite(map[], Recoded(f, w)))
  {
    var s := Connected();
    var s1 := s.(primary := ApplyWrite(map[], w), toFan := [w]);
    var s2 := s1.(toFan := [], queue := [w]);
    assert [] + [w] == [w] && [w][1..] == [] && {} - {w.key} == {};
    Last(f, s2, DeliverQueue);
    OneStep(f, s1, Fanout, [DeliverQueue]);
    OneStep(f, s, Apply(w), [Fanout] + [DeliverQueue]);
  }

  lemma FaithfulConverges(f: Recode, keys: iset<Key>, values: iset<Blob>, steps: seq<Step>)
    requires (exists v :: v in values) && forall k, v :: k in keys && v in values ==> f(k) == k && f(v) == v
    requires Legal(f, INITIAL, steps) && RunOver(keys, values, steps) && Drained(Exec(f, INITIAL, steps))
    ensures Agrees(Exec(f, INITIAL, steps))
  {
    ReplicaConverges(f, steps);
  }

  /** A single write that agrees on the other side came through unchanged. */
  lemma OneWriteMustAgree(f: Recode, keys: iset<Key>, values: iset<Blob>, k: Key, v: Blob)
    requires k in keys && v in values
    requires forall steps :: Legal(f, INITIAL, steps) && RunOver(keys, values, steps) && Drained(Exec(f, INITIAL, steps)) ==>
               Agrees(Exec(f, INITIAL, steps))
    ensures f(k) == k && f(v) == v
  {
    var w := Put(k, v, None);
    var steps := Connect(ALL_KEYS) + SendOne(w);
    SentAlone(f, w);
    assert RunOver(keys, values, steps);
    var s := Exec(f, INITIAL, steps);
    assert SeenAt(s.replica, k, 0) == SeenAt(s.primary, k, 0);
  }

  /** Connecting, then one write: the primary holds it, the replica holds what came through. */
  lemma SentAlone(f: Recode, w: Write)
    ensures var steps := Connect(ALL_KEYS) + SendOne(w);
            && Legal(f, INITIAL, steps) && Drained(Exec(f, INITIAL, steps))
            && Exec(f, INITIAL, steps).primary == ApplyWrite(map[], w)
            && Exec(f, INITIAL, steps).replica == ApplyWrite(map[], Recoded(f, w))
            && Exec(f, INITIAL, steps).lost == {} && Horizon(Exec(f, INITIAL, steps)) == 0
  {
    ConnectRuns(f);
    SendOneRuns(f, w);
    Concat(f, INITIAL, Connect(ALL_KEYS), SendOne(w));
  }

  /**
   Every drained run over the given keys and values converges, if and only if the encoding leaves each of those keys and
   values alone.
   */
  lemma ReplicasConvergeIff(f: Recode, keys: iset<Key>, values: iset<Blob>)
    requires exists v :: v in values
    ensures (forall steps :: Legal(f, INITIAL, steps) && RunOver(keys, values, steps) && Drained(Exec(f, INITIAL, steps)) ==>
               Agrees(Exec(f, INITIAL, steps)))
            <==> (forall k, v :: k in keys && v in values ==> f(k) == k && f(v) == v)
  {
    if forall k, v :: k in keys && v in values ==> f(k) == k && f(v) == v {
      forall steps | Legal(f, INITIAL, steps) && RunOver(keys, values, steps) && Drained(Exec(f, INITIAL, steps))
        ensures Agrees(Exec(f, INITIAL, steps))
      {
        FaithfulConverges(f, keys, values, steps);
      }
    } else if forall steps :: Legal(f, INITIAL, steps) && RunOver(keys, values, steps) && Drained(Exec(f, INITIAL, steps)) ==>
                Agrees(Exec(f, INITIAL, steps)) {
      forall k, v | k in keys && v in values ensures f(k) == k && f(v) == v {
        OneWriteMustAgree(f, keys, values, k, v);
      }
    }
  }

  /** With messages in JSON: replicas converge exactly on keys and values that are valid UTF-8. */
  lemma JsonConvergesIff(f: Recode, keys: iset<Key>, values: iset<Blob>)
    requires (forall s :: f(s) == Utf8.Sanitize(s)) && exists v :: v in values
    ensures (forall steps :: Legal(f, INITIAL, steps) && RunOver(keys, values, steps) && Drained(Exec(f, INITIAL, steps)) ==>
               Agrees(Exec(f, INITIAL, steps)))
            <==> (forall k, v :: k in keys && v in values ==> Utf8.Valid(k) && Utf8.Valid(v))
  {
    forall s ensures f(s) == s <==> Utf8.Valid(s) {
      Utf8.KeptIffValid(s);
    }
    ReplicasConvergeIff(f, keys, values);
  }

  /** A one-byte blob that is not UTF-8 is enough to tell the replica from the primary. */
  lemma BinaryBlobDiffers(f: Recode)
    requires forall s :: f(s) == Utf8.Sanitize(s)
    ensures exists steps :: Legal(f, INITIAL, steps) && Drained(Exec(f, INITIAL, steps)) && !Agrees(Exec(f, INITIAL, steps))
  {
    var k: Key, v: Blob := [107], [0xFF];
    Utf8.KeptIffValid(k);
    Utf8.KeptIffValid(v);
    assert k[1..] == [] && Utf8.Valid(k) && !Utf8.Valid(v);
    SentAlone(f, Put(k, v, None));
    var s := Exec(f, INITIAL, Connect(ALL_KEYS) + SendOne(Put(k, v, None)));
    assert SeenAt(s.replica, k, 0) != SeenAt(s.primary, k, 0);
  }

  // ---- What a refused message does ----

  const OLDER := Put([107], [0], None)
  const NEWER := Put([107], [1], None)

  /** A connected replica with `n` copies of a message in its queue and `view` on the primary. */
  ghost function Loaded(n: nat, view: View): State { Connected().(queue := seq(n, _ => OLDER), primary := view) }

  /** Writing the same value over and over fills the queue. */
  lemma {:induction false} Fill(f: Recode, n: nat) returns (steps: seq<Step>)
    requires 0 < n <= QUEUE_CAP
    ensures Legal(f, Connected(), steps) && Exec(f, Connected(), steps) == Loaded(n, ApplyWrite(map[], OLDER))
  {
    var view := ApplyWrite(map[], OLDER);
    if n == 1 {
      steps := [Apply(OLDER)] + [Fanout];
      FillOnce(f, 0, map[]);
      assert Loaded(0, map[]) == Connected();
    } else {
      var before := Fill(f, n - 1);
      FillOnce(f, n - 1, view);
      steps := before + ([Apply(OLDER)] + [Fanout]);
      Concat(f, Connected(), before, [Apply(OLDER)] + [Fanout]);
    }
  }

  lemma FillOnce(f: Recode, n: nat, view: View)
    requires n < QUEUE_CAP && view in {map[], ApplyWrite(map[], OLDER)}
    ensures var steps := [Apply(OLDER)] + [Fanout];
            Legal(f, Loaded(n, view), steps) && Exec(f, Loaded(n, view), steps) == Loaded(n + 1, ApplyWrite(map[], OLDER))
  {
    var s := Loaded(n, view);
    var s1 := s.(primary := ApplyWrite(map[], OLDER), toFan := [OLDER]);
    assert ApplyWrite(view, OLDER) == ApplyWrite(map[], OLDER);
    assert [] + [OLDER] == [OLDER] && [OLDER][1..] == [] && {} - {OLDER.key} == {};
    assert seq(n, _ => OLDER) + [OLDER] == seq(n + 1, _ => OLDER);
    Last(f, s1, Fanout);
    OneStep(f, s, Apply(OLDER), [Fanout]);
  }

  /** Delivering a queue of copies. */
  lemma {:induction false} Drain(f: Recode, n: nat, view: View, lost: set<Key>, replica: View) returns (steps: seq<Step>)
    requires forall s :: f(s) == s
    requires n > 0 || replica == ApplyWrite(map[], OLDER)
    requires replica in {map[], ApplyWrite(map[], OLDER)}
    ensures var s := Loaded(n, view).(lost := lost, replica := replica);
            && Legal(f, s, steps)
            && Exec(f, s, steps) == Loaded(0, view).(lost := lost, replica := ApplyWrite(map[], OLDER))
  {
    var s := Loaded(n, view).(lost := lost, replica := replica);
    if n == 0 {
      steps := [];
    } else {
      var s' := Loaded(n - 1, view).(lost := lost, replica := ApplyWrite(map[], OLDER));
      assert seq(n, _ => OLDER)[1..] == seq(n - 1, _ => OLDER) && s.queue[0] == OLDER;
      assert ApplyWrite(replica, OLDER) == ApplyWrite(map[], OLDER);
      var rest := Drain(f, n - 1, view, lost, ApplyWrite(map[], OLDER));
      OneStep(f, s, DeliverQueue, rest);
      steps := [DeliverQueue] + rest;
    }
  }

  /** One write too many for the queue: once drained, the replica shows the value before it, and nothing will tell it. */
  lemma RefusedMessageDiverges(f: Recode)
    requires forall s :: f(s) == s
    ensures exists steps :: Legal(f, INITIAL, steps) && Drained(Exec(f, INITIAL, steps))
              && var s := Exec(f, INITIAL, steps); SeenAt(s.replica, [107], 0) != SeenAt(s.primary, [107], 0)
  {
    var older, newer := ApplyWrite(map[], OLDER), ApplyWrite(map[], NEWER);
    ConnectRuns(f);
    var a := Fill(f, QUEUE_CAP);
    Concat(f, INITIAL, Connect(ALL_KEYS), a);
    Refuse(f);
    var b := [Apply(NEWER)] + [Fanout];
    Concat(f, INITIAL, Connect(ALL_KEYS) + a, b);
    var c := Drain(f, QUEUE_CAP, newer, {NEWER.key}, map[]);
    Concat(f, INITIAL, Connect(ALL_KEYS) + a + b, c);
    var s := Exec(f, INITIAL, Connect(ALL_KEYS) + a + b + c);
    assert s == Loaded(0, newer).(lost := {NEWER.key}, replica := older);
    assert SeenAt(s.replica, [107], 0) != SeenAt(s.primary, [107], 0);
  }

  lemma Refuse(f: Recode)
    ensures var s := Loaded(QUEUE_CAP, ApplyWrite(map[], OLDER)); var steps := [Apply(NEWER)] + [Fanout];
            && Legal(f, s, steps)
            && Exec(f, s, steps) == Loaded(QUEUE_CAP, ApplyWrite(map[], NEWER)).(lost := {NEWER.key})
  {
    var s := Loaded(QUEUE_CAP, ApplyWrite(map[], OLDER));
    var s1 := s.(primary := ApplyWrite(map[], NEWER), toFan := [NEWER]);
    assert ApplyWrite(ApplyWrite(map[], OLDER), NEWER) == ApplyWrite(map[], NEWER);
    assert [] + [NEWER] == [NEWER] && [NEWER][1..] == [] && {} + {NEWER.key} == {NEWER.key};
    Last(f, s1, Fanout);
    OneStep(f, s, Apply(NEWER), [Fanout]);
  }

  // ---- Any number of replicas ----

  /** What the primary keeps for, and what has become of, one replica. */
  datatype Link = Link(phase: Phase, queue: seq<Write>, scanned: iset<Key>, snapshot: seq<Write>, replica: View,
                       replicaClock: int, lost: set<Key>)

  const NO_LINK := Link(Unregistered, [], NO_KEYS, [], map[], 0, {})

  /** One primary with its replicas; each connection starts with an empty replica. */
  datatype Cluster = Cluster(primary: View, toFan: seq<Write>, clock: int, links: map<nat, Link>)

  const EMPTY_CLUSTER := Cluster(map[], [], 0, map[])

  function LinkOf(c: Cluster, id: nat): Link { if id in c.links then c.links[id] else NO_LINK }

  /** The cluster as one replica takes part in it. */
  function At(c: Cluster, id: nat): State {
    var l := LinkOf(c, id);
    State(c.primary, c.toFan, c.clock, l.phase, l.queue, l.scanned, l.snapshot, l.replica, l.replicaClock, l.lost)
  }

  /** The primary without any replica. */
  function Alone(c: Cluster): State {
    State(c.primary, c.toFan, c.clock, Unregistered, [], NO_KEYS, [], map[], 0, {})
  }

  function Cut(s: State): Link { Link(s.phase, s.queue, s.scanned, s.snapshot, s.replica, s.replicaClock, s.lost) }

  datatype ClusterStep =
    | Shared(step: Step)            // Apply, Fanout, Reorder, Evict: every link takes part
    | Own(id: nat, step: Step)      // the other steps, of one link
    | Hangup(id: nat)

  predicate IsShared(step: Step) { step.Apply? || step.Fanout? || step.Reorder? || step.Evict? }

  ghost predicate ClusterEnabled(c: Cluster, step: ClusterStep) {
    match step
    case Shared(st) => IsShared(st) && Enabled(Alone(c), st)
    case Own(id, st) => !IsShared(st) && Enabled(At(c, id), st)
    case Hangup(_) => true
  }

  ghost function ClusterDo(f: Recode, c: Cluster, step: ClusterStep): Cluster
    requires ClusterEnabled(c, step)
  {
    match step
    case Shared(st) =>
      var s := Do(f, Alone(c), st);
      Cluster(s.primary, s.toFan, s.clock, map id | id in c.links :: Cut(Do(f, At(c, id), st)))
    case Own(id, st) => c.(links := c.links[id := Cut(Do(f, At(c, id), st))])
    case Hangup(id) => c.(links := c.links - {id})
  }

  /** Seen from one replica, a step of the cluster is a step of its own protocol, no step, or its end. */
  lemma StepSeenAt(f: Recode, c: Cluster, step: ClusterStep, id: nat)
    requires ClusterEnabled(c, step)
    ensures step.Shared? ==> Enabled(At(c, id), step.step)
    ensures At(ClusterDo(f, c, step), id) ==
            match step {
              case Shared(st) => Do(f, At(c, id), st)
              case Own(other, st) => if other == id then Do(f, At(c, id), st) else At(c, id)
              case Hangup(other) => if other == id then At(c.(links := map[]), id) else At(c, id)
            }
  {
    if step.Shared? {
      SharedSeenAt(f, c, step.step, id);
    } else if step.Own? {
      OwnKeepsPrimary(f, At(c, step.id), step.step);
    }
  }

  lemma SharedSeenAt(f: Recode, c: Cluster, st: Step, id: nat)
    requires ClusterEnabled(c, Shared(st))
    ensures Enabled(At(c, id), st) && At(ClusterDo(f, c, Shared(st)), id) == Do(f, At(c, id), st)
  {
  }

  lemma OwnKeepsPrimary(f: Recode, s: State, step: Step)
    requires Enabled(s, step) && !IsShared(step)
    ensures var s' := Do(f, s, step); s'.primary == s.primary && s'.toFan == s.toFan && s'.clock == s.clock
  {
  }

  ghost predicate ClusterInv(f: Recode, c: Cluster) { forall id :: Inv(At(c, id)) && Kept(f, At(c, id)) }

  ghost predicate ClusterHarmless(f: Recode, step: ClusterStep) { step.Shared? ==> Harmless(f, step.step) }

  lemma ClusterStepInv(f: Recode, c: Cluster, step: ClusterStep)
    requires ClusterInv(f, c) && ClusterEnabled(c, step) && ClusterHarmless(f, step)
    ensures ClusterInv(f, ClusterDo(f, c, step))
  {
    forall id ensures Inv(At(ClusterDo(f, c, step), id)) && Kept(f, At(ClusterDo(f, c, step), id)) {
      assert Inv(At(c, id)) && Kept(f, At(c, id));
      StepSeenAt(f, c, step, id);
      match step
      case Shared(st) => StepInv(f, At(c, id), st);
      case Own(other, st) =>
        if other == id {
          StepInv(f, At(c, id), st);
        }
      case Hangup(other) => FreshInv(c, id);
    }
  }

  /** A link that is not there yet takes over nothing but the primary's part of the invariant. */
  lemma FreshInv(c: Cluster, id: nat)
    requires Inv(At(c, id))
    ensures Inv(At(c.(links := map[]), id))
  {
    var s := At(c.(links := map[]), id);
    forall k ensures FanMatches(s, k) {
      assert FanMatches(At(c, id), k);
    }
  }

  ghost predicate ClusterLegal(f: Recode, c: Cluster, steps: seq<ClusterStep>)
    decreases |steps|
  {
    steps == [] || (ClusterEnabled(c, steps[0]) && ClusterLegal(f, ClusterDo(f, c, steps[0]), steps[1..]))
  }

  ghost function ClusterExec(f: Recode, c: Cluster, steps: seq<ClusterStep>): Cluster
    requires ClusterLegal(f, c, steps)
    decreases |steps|
  {
    if steps == [] then c else ClusterExec(f, ClusterDo(f, c, steps[0]), steps[1..])
  }

  lemma {:induction false} ClusterRunInv(f: Recode, c: Cluster, steps: seq<ClusterStep>)
    requires ClusterInv(f, c) && ClusterLegal(f, c, steps)
    requires forall i :: 0 <= i < |steps| ==> ClusterHarmless(f, steps[i])
    ensures ClusterInv(f, ClusterExec(f, c, steps))
    decreases |steps|
  {
    if steps != [] {
      ClusterStepInv(f, c, steps[0]);
      ClusterRunInv(f, ClusterDo(f, c, steps[0]), steps[1..]);
    }
  }

  /**
   With any number of replicas that come and go: whichever of them is drained shows at every later time what the primary
   shows, for every key whose newest message its own queue did not refuse, if every write comes through the encoding
   unchanged. A slow replica harms no other.
   */
  lemma EveryReplicaConverges(f: Recode, steps: seq<ClusterStep>, id: nat)
    requires ClusterLegal(f, EMPTY_CLUSTER, steps) && forall i :: 0 <= i < |steps| ==> ClusterHarmless(f, steps[i])
    requires Drained(At(ClusterExec(f, EMPTY_CLUSTER, steps), id))
    ensures Agrees(At(ClusterExec(f, EMPTY_CLUSTER, steps), id))
  {
    forall other ensures Inv(At(EMPTY_CLUSTER, other)) && Kept(f, At(EMPTY_CLUSTER, other)) {
      assert At(EMPTY_CLUSTER, other) == INITIAL;
    }
    ClusterRunInv(f, EMPTY_CLUSTER, steps);
    var s := At(ClusterExec(f, EMPTY_CLUSTER, steps), id);
    assert Inv(s);
    DrainedAgrees(s);
  }

  // ---- The queues of the primary ----

  /** Exactly the registered replicas of the cluster are in the set, and their queues are in the channels. */
  ghost predicate Keeps(replicas: set<nat>, channels: map<nat, seq<Write>>, c: Cluster) {
    && replicas <= channels.Keys
    && (forall id :: id in replicas <==> !LinkOf(c, id).phase.Unregistered?)
    && (forall id :: id in replicas ==> channels[id] == LinkOf(c, id).queue)
  }

  function Offered(queue: seq<Write>, w: Write): seq<Write> { if |queue| < QUEUE_CAP then queue + [w] else queue }

  /** The registered replicas. A channel exists, with its contents, before it is registered and after. */
  class ReplicationManager {
    var replicas: set<nat>
    var channels: map<nat, seq<Write>>

    /** The manager keeps the queues of this cluster. */
    ghost predicate Serves(c: Cluster)
      reads this
    {
      Keeps(replicas, channels, c)
    }

    constructor ()
      ensures replicas == {} && channels == map[] && Serves(EMPTY_CLUSTER)
    {
      replicas, channels := {}, map[];
    }

    /** A new connection makes an empty channel. */
    method MakeChannel(ch: nat)
      requires ch !in channels
      modifies this`channels
      ensures channels == old(channels)[ch := []]
      ensures forall c :: old(Serves(c)) ==> Serves(c)
    {
      channels := channels[ch := []];
    }

    /** Registering a channel that has not been used is the protocol's registration of that replica; nothing is emptied. */
    method Register(ch: nat, ghost f: Recode, ghost c: Cluster)
      requires ch in channels
      modifies this`replicas
      ensures replicas == old(replicas) + {ch}
      ensures old(Serves(c)) && ch !in old(replicas) && ch !in c.links && channels[ch] == [] ==>
                ClusterEnabled(c, Own(ch, Step.Register)) && Serves(ClusterDo(f, c, Own(ch, Step.Register)))
    {
      replicas := replicas + {ch};
    }

    /** Unregistering is the end of that replica's part; all others are served as before. */
    method Unregister(ch: nat, ghost f: Recode, ghost c: Cluster)
      modifies this`replicas
      ensures replicas == old(replicas) - {ch}
      ensures old(Serves(c)) ==> Serves(ClusterDo(f, c, Hangup(ch)))
    {
      replicas := replicas - {ch};
    }

    /** Offers the entry to every registered channel; a full one drops it. This is the protocol's fan-out for all of them. */
    method Fanout(w: Write, ghost f: Recode, ghost c: Cluster)
      requires replicas <= channels.Keys
      modifies this`channels
      ensures channels.Keys == old(channels).Keys
      ensures forall ch :: ch in channels ==>
                channels[ch] == if ch in replicas then Offered(old(channels)[ch], w) else old(channels)[ch]
      ensures old(Serves(c)) && c.toFan != [] && c.toFan[0] == w ==>
                ClusterEnabled(c, Shared(Step.Fanout)) && Serves(ClusterDo(f, c, Shared(Step.Fanout)))
    {
      var todo := replicas;
      while todo != {}
        invariant channels.Keys == old(channels).Keys && todo <= replicas
        invariant forall ch :: ch in channels ==>
                    channels[ch] == if ch in replicas && ch !in todo then Offered(old(channels)[ch], w) else old(channels)[ch]
        decreases todo
      {
        var ch :| ch in todo;
        if |channels[ch]| < QUEUE_CAP {
          channels := channels[ch := channels[ch] + [w]];
        }
        todo := todo - {ch};
      }
      if old(Serves(c)) && c.toFan != [] && c.toFan[0] == w {
        FanoutKept(f, replicas, old(channels), channels, c);
      }
    }
  }

  lemma FanoutKept(f: Recode, replicas: set<nat>, channels: map<nat, seq<Write>>, channels': map<nat, seq<Write>>, c: Cluster)
    requires Keeps(replicas, channels, c) && c.toFan != [] && channels'.Keys == channels.Keys
    requires forall ch :: ch in channels ==>
               channels'[ch] == if ch in replicas then Offered(channels[ch], c.toFan[0]) else channels[ch]
    ensures ClusterEnabled(c, Shared(Step.Fanout)) && Keeps(replicas, channels', ClusterDo(f, c, Shared(Step.Fanout)))
  {
    var c' := ClusterDo(f, c, Shared(Step.Fanout));
    forall id ensures id in replicas <==> !LinkOf(c', id).phase.Unregistered? {
      FanoutQueue(f, c, id);
    }
    forall id | id in replicas ensures channels'[id] == LinkOf(c', id).queue {
      FanoutQueue(f, c, id);
    }
  }

  /** What the protocol's fan-out does to one replica's phase and queue. */
  lemma FanoutQueue(f: Recode, c: Cluster, id: nat)
    requires c.toFan != []
    ensures ClusterEnabled(c, Shared(Step.Fanout))
    ensures var l, l' := LinkOf(c, id), LinkOf(ClusterDo(f, c, Shared(Step.Fanout)), id);
            l'.phase == l.phase && l'.queue == if l.phase.Unregistered? then l.queue else Offered(l.queue, c.toFan[0])
  {
  }
}
