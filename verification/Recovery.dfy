/**
 The database over its index: write-ahead log, TTL cache, eviction, compaction and recovery, as steps on values. The
 index is the map the hash index was proved to be. Log records go through an encoding of which nothing is assumed; the
 main results say exactly for which keys it does no harm.
 */
module Recovery {
  import opened Bytes
  import opened Expiry
  import Utf8

  datatype Slot = Slot(addr: nat, expiresAt: int)

  datatype WalEntry =
    | LogSet(key: Key, addr: nat, expiresAt: int)
    | LogDelete(key: Key)

  datatype Db = Db(index: map<Key, Slot>, ttl: map<Key, int>, wal: seq<WalEntry>, clock: int)

  /** What a reader at time `t` sees of a key. */
  function Seen(index: map<Key, Slot>, key: Key, t: int): Option<Slot> {
    if key in index && !Lapsed(index[key].expiresAt, t) then Some(index[key]) else None
  }

  /** No reader, from `now` on, can tell the two indexes apart. */
  ghost predicate SameFrom(a: map<Key, Slot>, b: map<Key, Slot>, now: int) {
    forall k, t :: now <= t ==> Seen(a, k, t) == Seen(b, k, t)
  }

  // ---- Steps ----

  function ApplyToIndex(index: map<Key, Slot>, e: WalEntry): map<Key, Slot> {
    match e
    case LogSet(k, a, x) => index[k := Slot(a, x)]
    case LogDelete(k) => index - {k}
  }

  function ApplyToTtl(ttl: map<Key, int>, e: WalEntry): map<Key, int> {
    match e
    case LogSet(k, _, x) => if x > 0 then ttl[k := x] else ttl - {k}
    case LogDelete(k) => ttl - {k}
  }

  function ApplyAll(index: map<Key, Slot>, es: seq<WalEntry>): map<Key, Slot> {
    if es == [] then index else ApplyToIndex(ApplyAll(index, es[..|es| - 1]), es[|es| - 1])
  }

  function ApplyAllTtl(ttl: map<Key, int>, es: seq<WalEntry>): map<Key, int> {
    if es == [] then ttl else ApplyToTtl(ApplyAllTtl(ttl, es[..|es| - 1]), es[|es| - 1])
  }

  /** Sets, deletes and root commits: index, cache and log move together. */
  function Write(db: Db, es: seq<WalEntry>): Db {
    Db(ApplyAll(db.index, es), ApplyAllTtl(db.ttl, es), db.wal + es, db.clock)
  }

  /** Eviction acts on the cache's word alone, and logs nothing. */
  function Evict(db: Db, now: int): Db {
    var gone := set k | k in db.ttl && now > db.ttl[k];
    Db(db.index - gone, db.ttl - gone, db.wal, now)
  }

  function LiveIndex(index: map<Key, Slot>, now: int): map<Key, Slot> {
    map k | k in index && !Lapsed(index[k].expiresAt, now) :: index[k]
  }

  /** The log lists the index: one set per key, in some order. */
  ghost predicate Lists(wal: seq<WalEntry>, index: map<Key, Slot>) {
    && (forall i :: 0 <= i < |wal| ==> wal[i].LogSet? && wal[i].key in index
                                       && index[wal[i].key] == Slot(wal[i].addr, wal[i].expiresAt))
    && (forall k :: k in index ==> exists i :: 0 <= i < |wal| && wal[i].key == k)
  }

  /** The replay guard of a set record: it reads the nanosecond stamp as seconds. */
  predicate GuardFires(e: WalEntry, now: int) {
    e.LogSet? && e.expiresAt > 0 && e.expiresAt * 1_000_000_000 < now
  }

  function Kept(wal: seq<WalEntry>, now: int): seq<WalEntry> {
    if wal == [] then []
    else
      var init := Kept(wal[..|wal| - 1], now);
      if GuardFires(wal[|wal| - 1], now) then init else init + [wal[|wal| - 1]]
  }

  /** Replaying the log at `now` on top of whatever index survived. */
  function Replay(index: map<Key, Slot>, wal: seq<WalEntry>, now: int): map<Key, Slot> {
    ApplyAll(index, Kept(wal, now))
  }

  // ---- The log file ----

  /** What writing a record and reading it back amounts to: the key it comes back with, and the length of its line. */
  datatype Coding = Coding(key: Key -> Key, line: WalEntry -> nat)

  /** The scanner that reads the log gives up on a line of this length. */
  const LINE_CAP: nat := 65536

  function CodedEntry(c: Coding, e: WalEntry): WalEntry {
    match e
    case LogSet(k, a, x) => LogSet(c.key(k), a, x)
    case LogDelete(k) => LogDelete(c.key(k))
  }

  /** The records as they read back. */
  function Read(c: Coding, wal: seq<WalEntry>): seq<WalEntry> {
    if wal == [] then [] else Read(c, wal[..|wal| - 1]) + [CodedEntry(c, wal[|wal| - 1])]
  }

  /** The log can be read to its end. */
  predicate Opens(c: Coding, wal: seq<WalEntry>) {
    forall i :: 0 <= i < |wal| ==> c.line(wal[i]) < LINE_CAP
  }

  /** The encoding leaves these keys alone. */
  ghost predicate Fixes(c: Coding, keys: iset<Key>) { forall k :: k in keys ==> c.key(k) == k }

  /** No record of these keys makes a line too long to read. */
  ghost predicate Short(c: Coding, keys: iset<Key>) { forall e: WalEntry :: e.key in keys ==> c.line(e) < LINE_CAP }

  lemma {:induction false} ReadFixed(c: Coding, keys: iset<Key>, wal: seq<WalEntry>)
    requires Fixes(c, keys) && forall i :: 0 <= i < |wal| ==> wal[i].key in keys
    ensures Read(c, wal) == wal
  {
    if wal != [] {
      ReadFixed(c, keys, wal[..|wal| - 1]);
    }
  }

  // ---- Steps ----

  datatype Step =
    | DoWrite(es: seq<WalEntry>)
    | DoEvict(now: int)
    | DoCompact(now: int, wal: seq<WalEntry>)
    | DoRestartReplay(now: int)       // index file kept, log read and replayed on top of it
    | DoRestartRebuild(now: int)      // index file kept, TTL cache rebuilt from its live keys

  ghost predicate Enabled(c: Coding, db: Db, step: Step) {
    match step
    case DoWrite(_) => true
    case DoEvict(now) => db.clock <= now
    case DoCompact(now, wal) => db.clock <= now && Lists(wal, LiveIndex(db.index, now))
    case DoRestartReplay(now) =>
      db.clock <= now && Opens(c, db.wal) && forall i :: 0 <= i < |db.wal| ==> !GuardFires(db.wal[i], now)
    case DoRestartRebuild(now) => db.clock <= now
  }

  /** `wal` holds the records as they were handed to the log; what a restart reads is their encoded form. */
  function Do(c: Coding, db: Db, step: Step): Db {
    match step
    case DoWrite(es) => Write(db, es)
    case DoEvict(now) => Evict(db, now)
    case DoCompact(now, wal) => Db(LiveIndex(db.index, now), db.ttl, wal, now)
    case DoRestartReplay(now) =>
      var records := Read(c, db.wal);
      Db(Replay(db.index, records, now), ApplyAllTtl(map[], Kept(records, now)), db.wal, now)
    case DoRestartRebuild(now) =>
      var live := LiveIndex(db.index, now);
      Db(db.index, map k | k in live && live[k].expiresAt > 0 :: live[k].expiresAt, db.wal, now)
  }

  ghost predicate Legal(c: Coding, db: Db, steps: seq<Step>)
    decreases |steps|
  {
    steps == [] || (Enabled(c, db, steps[0]) && Legal(c, Do(c, db, steps[0]), steps[1..]))
  }

  function Exec(c: Coding, db: Db, steps: seq<Step>): Db
    decreases |steps|
  {
    if steps == [] then db else Exec(c, Do(c, db, steps[0]), steps[1..])
  }

  const EMPTY := Db(map[], map[], [], 0)

  /** A run of one step. */
  lemma OneStep(c: Coding, db: Db, step: Step)
    requires Enabled(c, db, step)
    ensures Legal(c, db, [step]) && Exec(c, db, [step]) == Do(c, db, step)
  {
    assert [step][1..] == [];
  }

  // ---- The cache, in every run ----

  /** A cache entry is the key's expiry in the index, or a lapsed leftover of a key the index no longer holds. */
  ghost predicate CacheMatches(db: Db) {
    forall k :: k in db.ttl ==>
      db.ttl[k] > 0 && if k in db.index then db.index[k].expiresAt == db.ttl[k] else db.clock > db.ttl[k]
  }

  /** Records act on index and cache alike: what they put into the cache is in the index. */
  lemma RecordsCache(index: map<Key, Slot>, ttl: map<Key, int>, es: seq<WalEntry>, k: Key)
    requires k in ApplyAllTtl(ttl, es)
    ensures Last(es, k).Some? ==>
              var x := ApplyAllTtl(ttl, es)[k]; x > 0 && k in ApplyAll(index, es) && ApplyAll(index, es)[k].expiresAt == x
    ensures Last(es, k).None? ==>
              && k in ttl && ApplyAllTtl(ttl, es)[k] == ttl[k]
              && (k in ApplyAll(index, es) <==> k in index) && (k in index ==> ApplyAll(index, es)[k] == index[k])
  {
    ApplyAllAt(index, es, k);
    ApplyAllTtlAt(ttl, es, k);
  }

  lemma StepCache(c: Coding, db: Db, step: Step)
    requires CacheMatches(db) && Enabled(c, db, step)
    ensures CacheMatches(Do(c, db, step)) && db.clock <= Do(c, db, step).clock
  {
    var db' := Do(c, db, step);
    match step
    case DoWrite(es) =>
      forall k | k in db'.ttl
        ensures db'.ttl[k] > 0 && if k in db'.index then db'.index[k].expiresAt == db'.ttl[k] else db'.clock > db'.ttl[k]
      {
        RecordsCache(db.index, db.ttl, es, k);
      }
    case DoRestartReplay(now) =>
      forall k | k in db'.ttl ensures db'.ttl[k] > 0 && k in db'.index && db'.index[k].expiresAt == db'.ttl[k] {
        RecordsCache(db.index, map[], Kept(Read(c, db.wal), now), k);
      }
    case _ =>
  }

  lemma {:induction false} RunCache(c: Coding, db: Db, steps: seq<Step>)
    requires CacheMatches(db) && Legal(c, db, steps)
    ensures CacheMatches(Exec(c, db, steps)) && db.clock <= Exec(c, db, steps).clock
    decreases |steps|
  {
    if steps != [] {
      StepCache(c, db, steps[0]);
      RunCache(c, Do(c, db, steps[0]), steps[1..]);
    }
  }

  /** After any run, whatever the encoding does, eviction changes no read now or later. */
  lemma EvictionIsInvisible(c: Coding, steps: seq<Step>, now: int)
    requires Legal(c, EMPTY, steps) && Exec(c, EMPTY, steps).clock <= now
    ensures var db := Exec(c, EMPTY, steps); SameFrom(Evict(db, now).index, db.index, now)
  {
    RunCache(c, EMPTY, steps);
  }

  // ---- Log and index, in runs over keys the encoding keeps ----

  /** The newest record of a key. */
  function Last(wal: seq<WalEntry>, key: Key): Option<WalEntry> {
    if wal == [] then None
    else if wal[|wal| - 1].key == key then Some(wal[|wal| - 1])
    else Last(wal[..|wal| - 1], key)
  }

  /** The index holds what the newest record says, or has dropped it after its expiry. */
  ghost predicate LogMatchesAt(db: Db, key: Key) {
    match Last(db.wal, key)
    case Some(LogSet(_, a, x)) => if key in db.index then db.index[key] == Slot(a, x) else Lapsed(x, db.clock)
    case _ => key !in db.index
  }

  ghost predicate LogMatches(db: Db) { forall k :: LogMatchesAt(db, k) }

  ghost predicate Inv(db: Db) { LogMatches(db) && CacheMatches(db) }

  /** Index and log mention no key outside the set. */
  ghost predicate KeysIn(keys: iset<Key>, db: Db) {
    (forall k :: k in db.index ==> k in keys) && forall i :: 0 <= i < |db.wal| ==> db.wal[i].key in keys
  }

  /** The step writes no other keys, and reads the log back only if the encoding leaves all of them alone. */
  ghost predicate Admits(c: Coding, keys: iset<Key>, step: Step) {
    && (step.DoWrite? ==> forall i :: 0 <= i < |step.es| ==> step.es[i].key in keys)
    && (step.DoRestartReplay? ==> Fixes(c, keys))
  }

  ghost predicate AdmitsAll(c: Coding, keys: iset<Key>, steps: seq<Step>) {
    forall i :: 0 <= i < |steps| ==> Admits(c, keys, steps[i])
  }

  /** A sequence of records acts on a key through the newest of them. */
  lemma {:induction false} ApplyAllAt(index: map<Key, Slot>, es: seq<WalEntry>, key: Key)
    ensures var index' := ApplyAll(index, es);
            match Last(es, key) {
              case None => (key in index' <==> key in index) && (key in index ==> index'[key] == index[key])
              case Some(LogSet(_, a, x)) => key in index' && index'[key] == Slot(a, x)
              case Some(LogDelete(_)) => key !in index'
            }
  {
    if es != [] {
      ApplyAllAt(index, es[..|es| - 1], key);
    }
  }

  lemma {:induction false} ApplyAllTtlAt(ttl: map<Key, int>, es: seq<WalEntry>, key: Key)
    ensures var ttl' := ApplyAllTtl(ttl, es);
            match Last(es, key) {
              case None => (key in ttl' <==> key in ttl) && (key in ttl ==> ttl'[key] == ttl[key])
              case Some(LogSet(_, _, x)) => (key in ttl' <==> x > 0) && (x > 0 ==> ttl'[key] == x)
              case Some(LogDelete(_)) => key !in ttl'
            }
  {
    if es != [] {
      ApplyAllTtlAt(ttl, es[..|es| - 1], key);
    }
  }

  lemma {:induction false} LastOfConcat(a: seq<WalEntry>, b: seq<WalEntry>, key: Key)
    ensures Last(a + b, key) == if Last(b, key).Some? then Last(b, key) else Last(a, key)
  {
    if b == [] {
      assert a + b == a;
    } else {
      LastOfConcat(a, b[..|b| - 1], key);
      assert (a + b)[..|a + b| - 1] == a + b[..|b| - 1];
    }
  }

  lemma {:induction false} LastIsARecord(wal: seq<WalEntry>, key: Key)
    ensures Last(wal, key).Some? ==> exists i :: 0 <= i < |wal| && wal[i] == Last(wal, key).value && wal[i].key == key
    ensures Last(wal, key).None? ==> forall i :: 0 <= i < |wal| ==> wal[i].key != key
  {
    if wal != [] {
      LastIsARecord(wal[..|wal| - 1], key);
    }
  }

  lemma WriteLog(db: Db, es: seq<WalEntry>)
    requires LogMatches(db)
    ensures LogMatches(Write(db, es))
  {
    forall k ensures LogMatchesAt(Write(db, es), k) {
      ApplyAllAt(db.index, es, k);
      LastOfConcat(db.wal, es, k);
      assert LogMatchesAt(db, k);
    }
  }

  lemma EvictLog(db: Db, now: int)
    requires Inv(db) && db.clock <= now
    ensures LogMatches(Evict(db, now))
  {
    forall k ensures LogMatchesAt(Evict(db, now), k) {
      assert LogMatchesAt(db, k);
    }
  }

  lemma CompactLog(c: Coding, db: Db, now: int, wal: seq<WalEntry>)
    requires Enabled(c, db, DoCompact(now, wal))
    ensures LogMatches(Do(c, db, DoCompact(now, wal)))
  {
    forall k ensures LogMatchesAt(Do(c, db, DoCompact(now, wal)), k) {
      LastIsARecord(wal, k);
    }
  }

  lemma {:induction false} KeepsAll(wal: seq<WalEntry>, now: int)
    requires forall i :: 0 <= i < |wal| ==> !GuardFires(wal[i], now)
    ensures Kept(wal, now) == wal
  {
    if wal != [] {
      KeepsAll(wal[..|wal| - 1], now);
    }
  }

  lemma RestartReplayLog(c: Coding, keys: iset<Key>, db: Db, now: int)
    requires LogMatches(db) && KeysIn(keys, db) && Fixes(c, keys) && Enabled(c, db, DoRestartReplay(now))
    ensures LogMatches(Do(c, db, DoRestartReplay(now)))
  {
    ReadFixed(c, keys, db.wal);
    KeepsAll(db.wal, now);
    forall k ensures LogMatchesAt(Do(c, db, DoRestartReplay(now)), k) {
      ApplyAllAt(db.index, db.wal, k);
      assert LogMatchesAt(db, k);
    }
  }

  lemma RestartRebuildLog(c: Coding, db: Db, now: int)
    requires LogMatches(db) && db.clock <= now
    ensures LogMatches(Do(c, db, DoRestartRebuild(now)))
  {
    forall k ensures LogMatchesAt(Do(c, db, DoRestartRebuild(now)), k) {
      assert LogMatchesAt(db, k);
    }
  }

  lemma StepLog(c: Coding, keys: iset<Key>, db: Db, step: Step)
    requires Inv(db) && KeysIn(keys, db) && Enabled(c, db, step) && Admits(c, keys, step)
    ensures LogMatches(Do(c, db, step))
  {
    match step
    case DoWrite(es) => WriteLog(db, es);
    case DoEvict(now) => EvictLog(db, now);
    case DoCompact(now, wal) => CompactLog(c, db, now, wal);
    case DoRestartReplay(now) => RestartReplayLog(c, keys, db, now);
    case DoRestartRebuild(now) => RestartRebuildLog(c, db, now);
  }

  /** Applying records brings in no key but theirs. */
  lemma {:induction false} RecordKeys(keys: iset<Key>, index: map<Key, Slot>, es: seq<WalEntry>)
    requires (forall k :: k in index ==> k in keys) && forall i :: 0 <= i < |es| ==> es[i].key in keys
    ensures forall k :: k in ApplyAll(index, es) ==> k in keys
  {
    if es != [] {
      RecordKeys(keys, index, es[..|es| - 1]);
    }
  }

  lemma StepKeys(c: Coding, keys: iset<Key>, db: Db, step: Step)
    requires KeysIn(keys, db) && Enabled(c, db, step) && Admits(c, keys, step)
    ensures KeysIn(keys, Do(c, db, step))
  {
    match step
    case DoWrite(es) => RecordKeys(keys, db.index, es);
    case DoRestartReplay(now) =>
      ReadFixed(c, keys, db.wal);
      KeepsAll(db.wal, now);
      RecordKeys(keys, db.index, db.wal);
    case _ =>
  }

  lemma StepInv(c: Coding, keys: iset<Key>, db: Db, step: Step)
    requires Inv(db) && KeysIn(keys, db) && Enabled(c, db, step) && Admits(c, keys, step)
    ensures Inv(Do(c, db, step)) && KeysIn(keys, Do(c, db, step)) && db.clock <= Do(c, db, step).clock
  {
    StepCache(c, db, step);
    StepLog(c, keys, db, step);
    StepKeys(c, keys, db, step);
  }

  /** Every serial run of writes, evictions, compactions and restarts keeps log, index and cache in step. */
  lemma {:induction false} RunInv(c: Coding, keys: iset<Key>, db: Db, steps: seq<Step>)
    requires Inv(db) && KeysIn(keys, db) && Legal(c, db, steps) && AdmitsAll(c, keys, steps)
    ensures Inv(Exec(c, db, steps)) && KeysIn(keys, Exec(c, db, steps)) && db.clock <= Exec(c, db, steps).clock
    decreases |steps|
  {
    if steps != [] {
      assert Admits(c, keys, steps[0]);
      StepInv(c, keys, db, steps[0]);
      RunInv(c, keys, Do(c, db, steps[0]), steps[1..]);
    }
  }

  // ---- What a replay shows ----

  // ---- What eviction leaves behind ----

  /** Keys with a stamp that the cache does not know: no eviction finds them. */
  ghost function Strays(db: Db): set<Key> { set k | k in db.index && db.index[k].expiresAt > 0 && k !in db.ttl }

  /** After an eviction at `now`, a key that has lapsed is still in the index exactly if it is a stray. */
  lemma EvictionLeavesStrays(db: Db, now: int, key: Key)
    requires CacheMatches(db)
    ensures var db' := Evict(db, now);
            (key in db'.index && Lapsed(db'.index[key].expiresAt, now)) <==>
            (key in Strays(db) && Lapsed(db.index[key].expiresAt, now))
  {
  }

  /**
   How strays come and go. A write settles the keys it mentions; compaction drops those that have lapsed. Rebuilding
   the cache forgets the keys that have lapsed by then, replaying the log those it does not read back.
   */
  ghost function StraysAfter(c: Coding, db: Db, strays: set<Key>, step: Step): set<Key> {
    match step
    case DoWrite(es) => set k | k in strays && Last(es, k).None?
    case DoEvict(_) => strays
    case DoCompact(now, _) => set k | k in strays && k in db.index && !Lapsed(db.index[k].expiresAt, now)
    case DoRestartReplay(now) =>
      set k | k in db.index && db.index[k].expiresAt > 0 && Last(Kept(Read(c, db.wal), now), k).None?
    case DoRestartRebuild(now) => set k | k in db.index && Lapsed(db.index[k].expiresAt, now)
  }

  lemma StrayStep(c: Coding, db: Db, step: Step)
    requires CacheMatches(db) && Enabled(c, db, step)
    ensures Strays(Do(c, db, step)) == StraysAfter(c, db, Strays(db), step)
  {
    var db' := Do(c, db, step);
    forall k ensures k in Strays(db') <==> k in StraysAfter(c, db, Strays(db), step) {
      match step
      case DoWrite(es) =>
        ApplyAllAt(db.index, es, k);
        ApplyAllTtlAt(db.ttl, es, k);
      case DoRestartReplay(now) =>
        ApplyAllAt(db.index, Kept(Read(c, db.wal), now), k);
        ApplyAllTtlAt(map[], Kept(Read(c, db.wal), now), k);
      case _ =>
    }
  }

  /** The strays of a run, told from its steps alone. */
  ghost function StraysOf(c: Coding, db: Db, strays: set<Key>, steps: seq<Step>): set<Key>
    decreases |steps|
  {
    if steps == [] then strays
    else StraysOf(c, Do(c, db, steps[0]), StraysAfter(c, db, strays, steps[0]), steps[1..])
  }

  lemma {:induction false} StrayRun(c: Coding, db: Db, steps: seq<Step>)
    requires CacheMatches(db) && Legal(c, db, steps)
    ensures Strays(Exec(c, db, steps)) == StraysOf(c, db, Strays(db), steps)
    decreases |steps|
  {
    if steps != [] {
      StepCache(c, db, steps[0]);
      StrayStep(c, db, steps[0]);
      StrayRun(c, Do(c, db, steps[0]), steps[1..]);
    }
  }

  /**
   After any run, through any encoding: once eviction has run at `now`, the lapsed keys left in the index are those that
   a restart forgot and that were neither written nor compacted away since.
   */
  lemma EvictionLeavesIff(c: Coding, steps: seq<Step>, now: int, key: Key)
    requires Legal(c, EMPTY, steps)
    ensures var db := Exec(c, EMPTY, steps); var db' := Evict(db, now);
            (key in db'.index && Lapsed(db'.index[key].expiresAt, now)) <==>
            (key in StraysOf(c, EMPTY, {}, steps) && key in db.index && Lapsed(db.index[key].expiresAt, now))
  {
    RunCache(c, EMPTY, steps);
    StrayRun(c, EMPTY, steps);
    assert Strays(EMPTY) == {};
    EvictionLeavesStrays(Exec(c, EMPTY, steps), now, key);
  }

  lemma NoStrayStep(c: Coding, keys: iset<Key>, db: Db, step: Step)
    requires Inv(db) && KeysIn(keys, db) && Enabled(c, db, step) && Admits(c, keys, step)
    requires Strays(db) == {} && !step.DoRestartRebuild?
    ensures Strays(Do(c, db, step)) == {}
  {
    StrayStep(c, db, step);
    if step.DoRestartReplay? {
      ReadFixed(c, keys, db.wal);
      KeepsAll(db.wal, step.now);
      forall k | k in db.index ensures Last(db.wal, k).Some? {
        assert LogMatchesAt(db, k);
      }
    }
  }

  lemma {:induction false} NoStrayRun(c: Coding, keys: iset<Key>, db: Db, steps: seq<Step>)
    requires Inv(db) && KeysIn(keys, db) && Legal(c, db, steps) && AdmitsAll(c, keys, steps) && Strays(db) == {}
    requires forall i :: 0 <= i < |steps| ==> !steps[i].DoRestartRebuild?
    ensures Strays(Exec(c, db, steps)) == {}
    decreases |steps|
  {
    if steps != [] {
      NoStrayStep(c, keys, db, steps[0]);
      StepInv(c, keys, db, steps[0]);
      NoStrayRun(c, keys, Do(c, db, steps[0]), steps[1..]);
    }
  }

  /** In a run over keys the encoding leaves alone and without a rebuilding restart, eviction leaves no lapsed key. */
  lemma EvictionIsComplete(c: Coding, keys: iset<Key>, steps: seq<Step>, now: int, key: Key)
    requires Legal(c, EMPTY, steps) && AdmitsAll(c, keys, steps)
    requires forall i :: 0 <= i < |steps| ==> !steps[i].DoRestartRebuild?
    ensures var db' := Evict(Exec(c, EMPTY, steps), now); key in db'.index ==> !Lapsed(db'.index[key].expiresAt, now)
  {
    NoStrayRun(c, keys, EMPTY, steps);
    RunCache(c, EMPTY, steps);
    EvictionLeavesStrays(Exec(c, EMPTY, steps), now, key);
  }

  /** A key that lapses before a rebuilding restart outlives every later eviction. */
  lemma RebuildForgetsLapsed(c: Coding, key: Key, now: int)
    requires 6 <= now
    ensures var steps := [DoWrite([LogSet(key, 0, 5)]), DoRestartRebuild(6)];
            Legal(c, EMPTY, steps) && key in Evict(Exec(c, EMPTY, steps), now).index
  {
    var e, a, b := LogSet(key, 0, 5), DoWrite([LogSet(key, 0, 5)]), DoRestartRebuild(6);
    var db1 := Do(c, EMPTY, a);
    OneRecordIndex(e);
    assert db1.index == map[key := Slot(0, 5)] && [a, b][1..] == [b];
    OneStep(c, db1, b);
  }

  lemma OneRecordIndex(e: WalEntry)
    ensures ApplyAll(map[], [e]) == ApplyToIndex(map[], e) && ApplyAllTtl(map[], [e]) == ApplyToTtl(map[], e)
  {
    assert [e][..0] == [];
  }

  lemma {:induction false} KeptLast(wal: seq<WalEntry>, now: int, key: Key)
    ensures Last(wal, key).Some? && !GuardFires(Last(wal, key).value, now) ==>
              Last(Kept(wal, now), key) == Last(wal, key)
    ensures Last(wal, key).None? ==> Last(Kept(wal, now), key).None?
  {
    if wal != [] {
      KeptLast(wal[..|wal| - 1], now, key);
      var init := Kept(wal[..|wal| - 1], now);
      assert (init + [wal[|wal| - 1]])[..|init|] == init;
    }
  }

  /**
   The guard does no harm: wherever it drops the newest record of a key, no older surviving record would show in its
   place.
   */
  ghost predicate GuardHarmless(wal: seq<WalEntry>, now: int) {
    forall k :: Last(wal, k).Some? && GuardFires(Last(wal, k).value, now) ==>
      match Last(Kept(wal, now), k) {
        case Some(LogSet(_, _, x)) => Lapsed(x, now)
        case _ => true
      }
  }

  /** What a record leaves to be seen at time `t`. */
  function Shown(record: Option<WalEntry>, t: int): Option<Slot> {
    match record
    case Some(LogSet(_, a, x)) => if Lapsed(x, t) then None else Some(Slot(a, x))
    case _ => None
  }

  /** No reader, from `now` on, can tell the two indexes apart by this key. */
  ghost predicate SameKeyFrom(a: map<Key, Slot>, b: map<Key, Slot>, key: Key, now: int) {
    forall t :: now <= t ==> Seen(a, key, t) == Seen(b, key, t)
  }

  /** In a database that kept in step, a reader sees the newest record of the whole log. */
  lemma IndexShowsLast(db: Db, key: Key, t: int)
    requires Inv(db) && db.clock <= t
    ensures Seen(db.index, key, t) == Shown(Last(db.wal, key), t)
  {
    assert LogMatchesAt(db, key);
  }

  lemma ReplayShows(base: map<Key, Slot>, wal: seq<WalEntry>, now: int, key: Key, t: int)
    ensures var kept := Last(Kept(wal, now), key);
            Seen(Replay(base, wal, now), key, t) == if kept.None? then Seen(base, key, t) else Shown(kept, t)
  {
    ApplyAllAt(base, Kept(wal, now), key);
  }

  lemma SameShownStays(a: Option<WalEntry>, b: Option<WalEntry>, now: int, t: int)
    requires Shown(a, now) == Shown(b, now) && now <= t
    ensures Shown(a, t) == Shown(b, t)
  {
  }

  /**
   Reading any prefix of the log back, through any encoding, over the surviving or an empty index: exactly when a key
   shows what the index shows.
   */
  lemma ReplayAgreesIff(c: Coding, db: Db, base: map<Key, Slot>, m: nat, now: int, key: Key)
    requires Inv(db) && db.clock <= now && m <= |db.wal| && base in {map[], db.index}
    ensures var records := Read(c, db.wal[..m]); var kept := Last(Kept(records, now), key);
            SameKeyFrom(Replay(base, records, now), db.index, key, now)
            <==> (kept.None? && base == db.index) || Shown(kept, now) == Shown(Last(db.wal, key), now)
  {
    var records := Read(c, db.wal[..m]);
    var kept, last := Last(Kept(records, now), key), Last(db.wal, key);
    ReplayShows(base, records, now, key, now);
    IndexShowsLast(db, key, now);
    if (kept.None? && base == db.index) || Shown(kept, now) == Shown(last, now) {
      forall t | now <= t ensures Seen(Replay(base, records, now), key, t) == Seen(db.index, key, t) {
        ReplayShows(base, records, now, key, t);
        IndexShowsLast(db, key, t);
        if Shown(kept, now) == Shown(last, now) {
          SameShownStays(kept, last, now, t);
        }
      }
    }
  }

  /**
   A crash after any run keeps the index and any prefix of the log, and the restart replays that prefix over the index.
   Exactly those keys fall back for which a surviving record reads back and shows something else than the newest record
   of the whole log does; a key no surviving record reads back as keeps what the index holds.
   */
  lemma LostTailFallsBackIff(c: Coding, keys: iset<Key>, steps: seq<Step>, m: nat, now: int, key: Key)
    requires Legal(c, EMPTY, steps) && AdmitsAll(c, keys, steps)
    requires m <= |Exec(c, EMPTY, steps).wal| && Exec(c, EMPTY, steps).clock <= now
    ensures var db := Exec(c, EMPTY, steps); var records := Read(c, db.wal[..m]); var kept := Last(Kept(records, now), key);
            SameKeyFrom(Replay(db.index, records, now), db.index, key, now)
            <==> kept.None? || Shown(kept, now) == Shown(Last(db.wal, key), now)
  {
    RunInv(c, keys, EMPTY, steps);
    ReplayAgreesIff(c, Exec(c, EMPTY, steps), Exec(c, EMPTY, steps).index, m, now, key);
  }

  /** With the index lost as well: exactly those keys agree whose surviving record shows what the newest one does. */
  lemma LostIndexFallsBackIff(c: Coding, keys: iset<Key>, steps: seq<Step>, m: nat, now: int, key: Key)
    requires Legal(c, EMPTY, steps) && AdmitsAll(c, keys, steps)
    requires m <= |Exec(c, EMPTY, steps).wal| && Exec(c, EMPTY, steps).clock <= now
    ensures var db := Exec(c, EMPTY, steps); var records := Read(c, db.wal[..m]);
            SameKeyFrom(Replay(map[], records, now), db.index, key, now)
            <==> Shown(Last(Kept(records, now), key), now) == Shown(Last(db.wal, key), now)
  {
    RunInv(c, keys, EMPTY, steps);
    ReplayAgreesIff(c, Exec(c, EMPTY, steps), map[], m, now, key);
    IndexShowsLast(Exec(c, EMPTY, steps), key, now);
  }

  /** A crash while the log is being rewritten loses nothing: any prefix of the new log, replayed, leaves the view alone. */
  lemma RewritingLosesNothing(c: Coding, keys: iset<Key>, steps: seq<Step>, at: int, wal: seq<WalEntry>, m: nat, now: int)
    requires Legal(c, EMPTY, steps) && AdmitsAll(c, keys, steps) && Fixes(c, keys)
    requires Enabled(c, Exec(c, EMPTY, steps), DoCompact(at, wal)) && m <= |wal| && at <= now
    ensures var db := Do(c, Exec(c, EMPTY, steps), DoCompact(at, wal));
            SameFrom(Replay(db.index, Read(c, wal[..m]), now), db.index, now)
  {
    var db := Exec(c, EMPTY, steps);
    var live := LiveIndex(db.index, at);
    RunInv(c, keys, EMPTY, steps);
    assert forall i :: 0 <= i < |wal| ==> wal[i].key in live;
    ReadFixed(c, keys, wal[..m]);
    forall k, t | now <= t ensures Seen(Replay(live, wal[..m], now), k, t) == Seen(live, k, t) {
      PartOfListing(live, wal, m, now, k, t);
    }
  }

  /** Replaying part of a listing of the index over the index changes nothing. */
  lemma PartOfListing(index: map<Key, Slot>, wal: seq<WalEntry>, m: nat, now: int, k: Key, t: int)
    requires Lists(wal, index) && m <= |wal|
    ensures Seen(Replay(index, wal[..m], now), k, t) == Seen(index, k, t)
  {
    ReplayShows(index, wal[..m], now, k, t);
    KeptIsARecord(wal[..m], now, k);
    assert forall i :: 0 <= i < m ==> wal[..m][i] == wal[i];
  }

  /** What the guard leaves are records of the log. */
  lemma {:induction false} KeptIsARecord(wal: seq<WalEntry>, now: int, key: Key)
    ensures Last(Kept(wal, now), key).Some? ==>
              exists i :: 0 <= i < |wal| && wal[i] == Last(Kept(wal, now), key).value && wal[i].key == key
  {
    if wal != [] {
      var init := Kept(wal[..|wal| - 1], now);
      KeptIsARecord(wal[..|wal| - 1], now, key);
      assert (init + [wal[|wal| - 1]])[..|init|] == init;
      assert wal[|wal| - 1] == wal[|wal| - 1];
    }
  }

  // ---- Recovery ----

  lemma RecoverAt(db: Db, base: map<Key, Slot>, now: int, k: Key, t: int)
    requires Inv(db) && db.clock <= now <= t && base in {map[], db.index}
    requires GuardHarmless(db.wal, now)
    ensures Seen(Replay(base, db.wal, now), k, t) == Seen(db.index, k, t)
  {
    assert LogMatchesAt(db, k);
    KeptLast(db.wal, now, k);
    ApplyAllAt(base, Kept(db.wal, now), k);
  }

  lemma GuardMustBeHarmless(db: Db, base: map<Key, Slot>, now: int)
    requires Inv(db) && db.clock <= now && base in {map[], db.index}
    requires SameFrom(Replay(base, db.wal, now), db.index, now)
    ensures GuardHarmless(db.wal, now)
  {
    forall k | Last(db.wal, k).Some? && GuardFires(Last(db.wal, k).value, now)
      ensures match Last(Kept(db.wal, now), k) {
                case Some(LogSet(_, _, x)) => Lapsed(x, now)
                case _ => true
              }
    {
      assert LogMatchesAt(db, k);
      LastIsARecord(db.wal, k);
      ApplyAllAt(base, Kept(db.wal, now), k);
      assert Seen(Replay(base, db.wal, now), k, now) == Seen(db.index, k, now);
    }
  }

  /**
   After any serial run over keys the encoding leaves alone, replaying the whole log into an empty index, or on top of
   the surviving one, is indistinguishable from the index at every later time, exactly when the misread guard is harmless.
   */
  lemma RecoveryAgrees(c: Coding, keys: iset<Key>, steps: seq<Step>, now: int)
    requires Legal(c, EMPTY, steps) && AdmitsAll(c, keys, steps) && Fixes(c, keys)
    requires Exec(c, EMPTY, steps).clock <= now
    ensures var db := Exec(c, EMPTY, steps); var records := Read(c, db.wal);
            && (SameFrom(Replay(map[], records, now), db.index, now) <==> GuardHarmless(records, now))
            && (SameFrom(Replay(db.index, records, now), db.index, now) <==> GuardHarmless(records, now))
  {
    RunInv(c, keys, EMPTY, steps);
    var db := Exec(c, EMPTY, steps);
    ReadFixed(c, keys, db.wal);
    forall base | base in {map[], db.index}
      ensures SameFrom(Replay(base, db.wal, now), db.index, now) <==> GuardHarmless(db.wal, now)
    {
      if GuardHarmless(db.wal, now) {
        forall k, t | now <= t ensures Seen(Replay(base, db.wal, now), k, t) == Seen(db.index, k, t) {
          RecoverAt(db, base, now, k, t);
        }
      } else if SameFrom(Replay(base, db.wal, now), db.index, now) {
        GuardMustBeHarmless(db, base, now);
      }
    }
  }

  /** Stamps made by a real clock are so far above the guard that it never fires, and recovery is exact. */
  lemma RealStampsAreHarmless(wal: seq<WalEntry>, now: int)
    requires forall i :: 0 <= i < |wal| && wal[i].LogSet? && wal[i].expiresAt > 0 ==>
               now <= wal[i].expiresAt * 1_000_000_000
    ensures GuardHarmless(wal, now) && Kept(wal, now) == wal
  {
    KeepsAll(wal, now);
    forall k | Last(wal, k).Some? ensures !GuardFires(Last(wal, k).value, now) {
      LastIsARecord(wal, k);
    }
  }

  /** With a stamp near the epoch the guard fires and brings an overwritten value back, even if the encoding does nothing. */
  lemma GuardCanResurrect(c: Coding, key: Key)
    requires c.key(key) == key
    ensures exists steps, now ::
              && Legal(c, EMPTY, steps) && Exec(c, EMPTY, steps).clock <= now
              && !SameFrom(Replay(map[], Read(c, Exec(c, EMPTY, steps).wal), now), Exec(c, EMPTY, steps).index, now)
  {
    var older, newer := LogSet(key, 0, 0), LogSet(key, 1, 5);
    var es := [older, newer];
    var now := 6_000_000_000;
    OneStep(c, EMPTY, DoWrite(es));
    var db := Exec(c, EMPTY, [DoWrite(es)]);
    assert [] + es == es;
    ReadFixed(c, iset{key}, es);
    assert Kept(es, now) == [older] by {
      assert es[..1] == [older] && [older][..0] == [];
      assert Kept([older], now) == [older];
    }
    ApplyAllAt(map[], es, key);
    ApplyAllAt(map[], [older], key);
    assert Seen(Replay(map[], Read(c, db.wal), now), key, now) == Some(Slot(0, 0));
    assert Seen(db.index, key, now) == None;
  }

  // ---- Evictions, compactions and restarts can be erased from every run ----

  /** The records written by a run, in order. */
  function Writes(steps: seq<Step>): seq<WalEntry> {
    if steps == [] then []
    else (if steps[0].DoWrite? then steps[0].es else []) + Writes(steps[1..])
  }

  lemma {:induction false} ApplyAllConcat(index: map<Key, Slot>, a: seq<WalEntry>, b: seq<WalEntry>)
    ensures ApplyAll(index, a + b) == ApplyAll(ApplyAll(index, a), b)
  {
    if b == [] {
      assert a + b == a;
    } else {
      ApplyAllConcat(index, a, b[..|b| - 1]);
      assert (a + b)[..|a + b| - 1] == a + b[..|b| - 1];
    }
  }

  lemma WritesKeepAlike(a: map<Key, Slot>, b: map<Key, Slot>, es: seq<WalEntry>, now: int)
    requires SameFrom(a, b, now)
    ensures SameFrom(ApplyAll(a, es), ApplyAll(b, es), now)
  {
    forall k, t | now <= t ensures Seen(ApplyAll(a, es), k, t) == Seen(ApplyAll(b, es), k, t) {
      ApplyAllAt(a, es, k);
      ApplyAllAt(b, es, k);
      assert Seen(a, k, t) == Seen(b, k, t);
    }
  }

  /** Everything but a write leaves what readers see as it was. */
  lemma MaintenanceIsInvisible(c: Coding, keys: iset<Key>, db: Db, step: Step)
    requires Inv(db) && KeysIn(keys, db) && Enabled(c, db, step) && Admits(c, keys, step) && !step.DoWrite?
    ensures SameFrom(Do(c, db, step).index, db.index, Do(c, db, step).clock)
  {
    if step.DoRestartReplay? {
      var now := step.now;
      ReadFixed(c, keys, db.wal);
      KeepsAll(db.wal, now);
      forall k | Last(db.wal, k).Some? ensures !GuardFires(Last(db.wal, k).value, now) {
        LastIsARecord(db.wal, k);
      }
      forall k, t | now <= t ensures Seen(Replay(db.index, db.wal, now), k, t) == Seen(db.index, k, t) {
        RecoverAt(db, db.index, now, k, t);
      }
    }
  }

  lemma {:induction false} RunShowsWrites(c: Coding, keys: iset<Key>, db: Db, steps: seq<Step>, plain: map<Key, Slot>)
    requires Inv(db) && KeysIn(keys, db) && Legal(c, db, steps) && AdmitsAll(c, keys, steps)
    requires SameFrom(db.index, plain, db.clock)
    ensures SameFrom(Exec(c, db, steps).index, ApplyAll(plain, Writes(steps)), Exec(c, db, steps).clock)
    decreases |steps|
  {
    if steps != [] {
      var step, db' := steps[0], Do(c, db, steps[0]);
      assert Admits(c, keys, step);
      StepInv(c, keys, db, step);
      if step.DoWrite? {
        WritesKeepAlike(db.index, plain, step.es, db.clock);
        ApplyAllConcat(plain, step.es, Writes(steps[1..]));
        RunShowsWrites(c, keys, db', steps[1..], ApplyAll(plain, step.es));
      } else {
        MaintenanceIsInvisible(c, keys, db, step);
        assert [] + Writes(steps[1..]) == Writes(steps[1..]);
        RunShowsWrites(c, keys, db', steps[1..], plain);
      }
    }
  }

  /**
   After any run over keys the encoding leaves alone, however evictions, compactions and both kinds of restart are spread
   over it, readers see at every later time exactly what the run's writes alone, applied to a plain map, would show them.
   */
  lemma RunsShowTheirWrites(c: Coding, keys: iset<Key>, steps: seq<Step>)
    requires Legal(c, EMPTY, steps) && AdmitsAll(c, keys, steps)
    ensures SameFrom(Exec(c, EMPTY, steps).index, ApplyAll(map[], Writes(steps)), Exec(c, EMPTY, steps).clock)
  {
    RunShowsWrites(c, keys, EMPTY, steps, map[]);
  }

  // ---- For which keys the database recovers ----

  /** The run writes no other keys. */
  ghost predicate WritesIn(keys: iset<Key>, steps: seq<Step>) {
    forall i :: 0 <= i < |steps| && steps[i].DoWrite? ==>
      forall j :: 0 <= j < |steps[i].es| ==> steps[i].es[j].key in keys
  }

  /**
   After the run the log can be read, and reading it back, into an empty index or over the surviving one, shows what the
   index shows, at every time the guard is harmless; and the index shows what the run wrote.
   */
  ghost predicate Recovers(c: Coding, steps: seq<Step>) {
    var db := Exec(c, EMPTY, steps); var records := Read(c, db.wal);
    && Opens(c, db.wal)
    && SameFrom(db.index, ApplyAll(map[], Writes(steps)), db.clock)
    && forall now :: db.clock <= now && GuardHarmless(records, now) ==>
         SameFrom(Replay(map[], records, now), db.index, now) && SameFrom(Replay(db.index, records, now), db.index, now)
  }

  lemma FaithfulRecovers(c: Coding, keys: iset<Key>, steps: seq<Step>)
    requires Fixes(c, keys) && Short(c, keys) && Legal(c, EMPTY, steps) && WritesIn(keys, steps)
    ensures Recovers(c, steps)
  {
    assert AdmitsAll(c, keys, steps);
    RunInv(c, keys, EMPTY, steps);
    RunsShowTheirWrites(c, keys, steps);
    var db := Exec(c, EMPTY, steps);
    forall now | db.clock <= now && GuardHarmless(Read(c, db.wal), now)
      ensures SameFrom(Replay(map[], Read(c, db.wal), now), db.index, now)
              && SameFrom(Replay(db.index, Read(c, db.wal), now), db.index, now)
    {
      RecoveryAgrees(c, keys, steps, now);
    }
  }

  /** A single record with a line too long keeps the database from opening. */
  lemma LongLineBlocks(c: Coding, e: WalEntry)
    requires c.line(e) >= LINE_CAP
    ensures Legal(c, EMPTY, [DoWrite([e])]) && !Recovers(c, [DoWrite([e])])
  {
    OneStep(c, EMPTY, DoWrite([e]));
    assert Exec(c, EMPTY, [DoWrite([e])]).wal == [e];
  }

  /** A log of one record that carries no expiry. */
  lemma OneRecordLog(c: Coding, key: Key, now: int)
    ensures var db := Exec(c, EMPTY, [DoWrite([LogSet(key, 0, 0)])]);
            && Legal(c, EMPTY, [DoWrite([LogSet(key, 0, 0)])]) && db.clock == 0
            && db.index == map[key := Slot(0, 0)] && Read(c, db.wal) == [LogSet(c.key(key), 0, 0)]
    ensures Kept([LogSet(c.key(key), 0, 0)], now) == [LogSet(c.key(key), 0, 0)]
  {
    var e, coded := LogSet(key, 0, 0), LogSet(c.key(key), 0, 0);
    OneStep(c, EMPTY, DoWrite([e]));
    assert [] + [e] == [e] && [e][..0] == [] && [coded][..0] == [];
    assert ApplyAll(map[], [e]) == ApplyToIndex(ApplyAll(map[], []), e);
  }

  /** A single write of a key the encoding changes is lost from an empty index, and shows a stranger in the surviving one. */
  lemma ChangedKeyIsLost(c: Coding, key: Key, now: int)
    requires c.key(key) != key && 0 <= now
    ensures var db := Exec(c, EMPTY, [DoWrite([LogSet(key, 0, 0)])]); var records := Read(c, db.wal);
            && GuardHarmless(records, now)
            && Seen(db.index, key, now).Some? && Seen(Replay(map[], records, now), key, now).None?
            && Seen(db.index, c.key(key), now).None? && Seen(Replay(db.index, records, now), c.key(key), now).Some?
  {
    OneRecordLog(c, key, now);
    Stranger(key, c.key(key), now);
  }

  lemma LastOfOne(e: WalEntry, key: Key)
    ensures Last([e], key) == if e.key == key then Some(e) else None
  {
    assert [e][..0] == [];
  }

  /** One record of another key, replayed over nothing and over an index of one key. */
  lemma Stranger(key: Key, other: Key, now: int)
    requires key != other
    ensures var index, records := map[key := Slot(0, 0)], [LogSet(other, 0, 0)];
            && GuardHarmless(records, now)
            && Seen(index, key, now).Some? && Seen(Replay(map[], records, now), key, now).None?
            && Seen(index, other, now).None? && Seen(Replay(index, records, now), other, now).Some?
  {
    var index, records := map[key := Slot(0, 0)], [LogSet(other, 0, 0)];
    assert records[..0] == [];
    assert Kept(records, now) == records;
    LastOfOne(LogSet(other, 0, 0), key);
    LastOfOne(LogSet(other, 0, 0), other);
    ReplayShows(map[], records, now, key, now);
    ReplayShows(index, records, now, other, now);
    RealStampsAreHarmless(records, now);
  }

  lemma ChangedKeyBlocks(c: Coding, key: Key)
    requires c.key(key) != key
    ensures Legal(c, EMPTY, [DoWrite([LogSet(key, 0, 0)])]) && !Recovers(c, [DoWrite([LogSet(key, 0, 0)])])
  {
    OneRecordLog(c, key, 0);
    ChangedKeyIsLost(c, key, 0);
    var db := Exec(c, EMPTY, [DoWrite([LogSet(key, 0, 0)])]);
    assert Seen(Replay(map[], Read(c, db.wal), 0), key, 0) != Seen(db.index, key, 0);
    assert !SameFrom(Replay(map[], Read(c, db.wal), 0), db.index, 0);
  }

  /**
   Every run that writes only the given keys recovers, if and only if the encoding leaves each of them alone and none of
   their records makes a line too long to read.
   */
  lemma RunsRecoverIff(c: Coding, keys: iset<Key>)
    ensures (forall steps :: Legal(c, EMPTY, steps) && WritesIn(keys, steps) ==> Recovers(c, steps))
            <==> Fixes(c, keys) && Short(c, keys)
  {
    if Fixes(c, keys) && Short(c, keys) {
      forall steps | Legal(c, EMPTY, steps) && WritesIn(keys, steps) ensures Recovers(c, steps) {
        FaithfulRecovers(c, keys, steps);
      }
    } else if forall steps :: Legal(c, EMPTY, steps) && WritesIn(keys, steps) ==> Recovers(c, steps) {
      forall e: WalEntry | e.key in keys ensures c.line(e) < LINE_CAP {
        OneWriteMustRecover(c, keys, e);
      }
      forall k | k in keys ensures c.key(k) == k {
        OneWriteMustRecover(c, keys, LogSet(k, 0, 0));
      }
    }
  }

  lemma OneWriteMustRecover(c: Coding, keys: iset<Key>, e: WalEntry)
    requires e.key in keys
    requires forall steps :: Legal(c, EMPTY, steps) && WritesIn(keys, steps) ==> Recovers(c, steps)
    ensures c.line(e) < LINE_CAP
    ensures e == LogSet(e.key, 0, 0) ==> c.key(e.key) == e.key
  {
    var steps := [DoWrite([e])];
    assert WritesIn(keys, steps);
    OneStep(c, EMPTY, steps[0]);
    if c.line(e) >= LINE_CAP {
      LongLineBlocks(c, e);
    }
    if e == LogSet(e.key, 0, 0) && c.key(e.key) != e.key {
      ChangedKeyBlocks(c, e.key);
    }
  }

  // ---- With the encoding the log has ----

  /** Keys go through JSON; a line is at least as long as the key's JSON form. */
  ghost predicate Json(c: Coding) {
    (forall k :: c.key(k) == Utf8.Sanitize(k)) && forall e: WalEntry :: Utf8.Escaped(e.key) <= c.line(e)
  }

  /** Exactly the keys that are valid UTF-8, and whose lines stay under the limit, are recovered. */
  lemma JsonRecoversIff(c: Coding, keys: iset<Key>)
    requires Json(c)
    ensures (forall steps :: Legal(c, EMPTY, steps) && WritesIn(keys, steps) ==> Recovers(c, steps))
            <==> (forall k :: k in keys ==> Utf8.Valid(k)) && Short(c, keys)
  {
    forall k ensures c.key(k) == k <==> Utf8.Valid(k) {
      Utf8.KeptIffValid(k);
    }
    RunsRecoverIff(c, keys);
  }

  /** The one-byte key FF is lost. */
  lemma InvalidKeyIsLost(c: Coding)
    requires Json(c)
    ensures Legal(c, EMPTY, [DoWrite([LogSet([0xFF], 0, 0)])]) && !Recovers(c, [DoWrite([LogSet([0xFF], 0, 0)])])
  {
    var key: Key := [0xFF];
    Utf8.KeptIffValid(key);
    ChangedKeyBlocks(c, key);
  }

  /** A key of 11000 less-than signs, well within the limit of the index, keeps the database from opening. */
  lemma AnglesBlockOpening(c: Coding, key: Key)
    requires Json(c) && |key| == 11000 && forall i :: 0 <= i < |key| ==> key[i] == 0x3C
    ensures Legal(c, EMPTY, [DoWrite([LogSet(key, 0, 0)])]) && !Recovers(c, [DoWrite([LogSet(key, 0, 0)])])
  {
    Utf8.AnglesGrow(key);
    LongLineBlocks(c, LogSet(key, 0, 0));
  }
}
