/**
 The hash index under concurrency and crashes: one serialized writer that updates the file in small steps, any number
 of lock-free readers, and process deaths at any point, followed by a reopening of whatever bytes are on disk.
 */
module IndexProtocol {
  import opened Bytes
  import opened EntryCodec
  import opened IndexLog
  import opened LogScan

  /** Where the writer is inside `Set` or `Delete`. */
  datatype Writer =
    | Idle
    | Appending(p: Placed, written: nat)  // `written` bytes of the entry have reached the file
    | Appended(p: Placed)                 // writePos moved past the entry
    | Published(p: Placed)                // in-memory bucket stored, bucket on disk not yet

  datatype Reader =
    | Walking(key: Key, off: nat)
    | Done(key: Key, result: Option<Cell>)

  /** `log` records the entries published since the file was created, less those a crash undid. */
  datatype State = State(file: seq<Byte>, buckets: seq<nat>, writePos: nat, log: seq<Placed>,
                         writer: Writer, readers: map<nat, Reader>)

  datatype Step =
    | Begin(key: Key, addr: NeedleAddr, expiresAt: Int64, deleted: bool)
    | WriteBytes(count: nat)
    | BumpWritePos
    | StoreBucket
    | PersistBucket
    | Load(id: nat, key: Key)
    | Follow(id: nat)
    | CrashAndReopen

  function Initial(n: nat): State
    requires DataBase(n) < TWO_63
  {
    State(InitialFile(n), seq(n, _ => 0), DataBase(n), [], Idle, map[])
  }

  ghost predicate Shape(n: nat, s: State) {
    0 < n && |s.buckets| == n && DataBase(n) <= |s.file|
  }

  ghost predicate Enabled(h: Hash, n: nat, s: State, step: Step)
    requires Shape(n, s)
  {
    match step
    case Begin(key, _, _, _) => s.writer.Idle? && |key| < TWO_16 && s.writePos + FIXED + |key| < TWO_63
    case WriteBytes(count) => s.writer.Appending? && s.writer.written + count <= EncodedSize(s.writer.p.entry)
    case BumpWritePos => s.writer.Appending? && s.writer.written == EncodedSize(s.writer.p.entry)
    case StoreBucket => s.writer.Appended?
    case PersistBucket => s.writer.Published?
    case Load(id, _) => id !in s.readers
    case Follow(id) => id in s.readers && s.readers[id].Walking?
    case CrashAndReopen => true
  }

  /** A table word read as a signed file offset. */
  function AsOffset(word: nat): Int64 {
    if word < TWO_64 then ToInt64(word) else 0
  }

  /** One iteration of the lookup loop. */
  function FollowOnce(file: seq<Byte>, r: Reader): Reader
    requires r.Walking?
  {
    if r.off == 0 then Done(r.key, None)
    else
      var d := ReadEntry(file, r.off);
      if d.None? then Done(r.key, None)
      else
        var e := d.value.entry;
        if e.key == r.key then Done(r.key, if e.deleted then None else Some(Cell(e.addr, e.expiresAt)))
        else if e.next < 0 then Done(r.key, None)
        else Walking(r.key, e.next)
  }

  /** The entries the bytes on disk stand for: a published entry counts once its bucket is on disk. */
  function Durable(s: State): seq<Placed> {
    if s.writer.Published? && s.log != [] then s.log[..|s.log| - 1] else s.log
  }

  ghost function Do(h: Hash, n: nat, s: State, step: Step): (s': State)
    requires Shape(n, s) && Enabled(h, n, s, step)
    ensures Shape(n, s')
  {
    match step
    case Begin(key, addr, expiresAt, deleted) =>
      var e := IndexEntry(AsOffset(s.buckets[Slot(h, n, key)]), key, addr, expiresAt, deleted);
      s.(writer := Appending(Placed(s.writePos, e), 0))
    case WriteBytes(count) =>
      var w := s.writer.written;
      s.(file := s.file + Encode(s.writer.p.entry)[w..w + count], writer := s.writer.(written := w + count))
    case BumpWritePos =>
      s.(writePos := s.writePos + EncodedSize(s.writer.p.entry), writer := Appended(s.writer.p))
    case StoreBucket =>
      var p := s.writer.p;
      s.(buckets := s.buckets[Slot(h, n, p.entry.key) := p.off], log := s.log + [p], writer := Published(p))
    case PersistBucket =>
      s.(file := Publish(h, n, s.file, s.writer.p), writer := Idle)
    case Load(id, key) =>
      s.(readers := s.readers[id := Walking(key, s.buckets[Slot(h, n, key)])])
    case Follow(id) =>
      s.(readers := s.readers[id := FollowOnce(s.file, s.readers[id])])
    case CrashAndReopen =>
      State(s.file, Table(n, s.file), |s.file|, Durable(s), Idle, map[])
  }

  /** What every reachable state satisfies. */
  ghost predicate Inv(h: Hash, n: nat, s: State) {
    Faithful(h, n, s) && InProgress(h, n, s)
  }

  /** The file stands for the durable part of the log, the table in memory for all of it. */
  ghost predicate Faithful(h: Hash, n: nat, s: State) {
    Shape(n, s) && Represents(h, n, s.file, Durable(s)) && s.buckets == Heads(h, n, s.log)
  }

  /** Where the writer is inside an operation, and what of it is in the file. */
  ghost predicate InProgress(h: Hash, n: nat, s: State)
    requires n > 0
  {
    match s.writer
    case Idle => s.writePos == |s.file|
    case Appending(p, w) =>
      && w <= EncodedSize(p.entry) && s.writePos + w == |s.file|
      && s.file[s.writePos..] == Encode(p.entry)[..w]
      && NextEntry(h, n, s.writePos, s.log, p)
    case Appended(p) => s.writePos == |s.file| && Ready(h, n, s.file, s.log, p)
    case Published(p) =>
      && s.writePos == |s.file| && PendingIsNewest(s)
      && Ready(h, n, s.file, Durable(s), p)
  }

  /** An entry published but not yet durable is the newest of the log. */
  ghost predicate PendingIsNewest(s: State) {
    s.writer.Published? ==> s.log != [] && s.log[|s.log| - 1] == s.writer.p
  }

  ghost predicate NextEntry(h: Hash, n: nat, writePos: nat, log: seq<Placed>, p: Placed)
    requires n > 0
  {
    && p.off == writePos < TWO_63 && |p.entry.key| < TWO_16 && LogEnd(n, log) <= p.off
    && p.entry.next == Head(h, n, log, Slot(h, n, p.entry.key))
  }

  lemma InitialInv(h: Hash, n: nat)
    requires 0 < n && DataBase(n) < TWO_63
    ensures Inv(h, n, Initial(n))
  {
    InitialRepresents(h, n);
  }

  lemma WholeEntry(file: seq<Byte>, p: Placed)
    requires End(p) == |file| && file[p.off..] == Encode(p.entry)[..EncodedSize(p.entry)]
    ensures file[p.off..End(p)] == Encode(p.entry)
  {
    assert file[p.off..End(p)] == file[p.off..];
  }

  lemma MoreBytes(file: seq<Byte>, off: nat, bs: seq<Byte>, w: nat, count: nat)
    requires off <= |file| && w + count <= |bs| && file[off..] == bs[..w]
    ensures (file + bs[w..w + count])[off..] == bs[..w + count]
  {
    assert (file + bs[w..w + count])[off..] == file[off..] + bs[w..w + count];
  }

  lemma BeginInv(h: Hash, n: nat, s: State, step: Step)
    requires Inv(h, n, s) && step.Begin? && Enabled(h, n, s, step)
    ensures Inv(h, n, Do(h, n, s, step))
  {
    LogFits(h, n, s.file, s.log);
    HeadFits(h, n, s.file, s.log, Slot(h, n, step.key));
    var s' := Do(h, n, s, step);
    assert Durable(s') == s.log && s'.file == s.file;
    assert s.file[s.writePos..] == [];
  }

  lemma BumpWritePosInv(h: Hash, n: nat, s: State)
    requires Inv(h, n, s) && Enabled(h, n, s, BumpWritePos)
    ensures Inv(h, n, Do(h, n, s, BumpWritePos))
  {
    WholeEntry(s.file, s.writer.p);
  }

  lemma StoreBucketInv(h: Hash, n: nat, s: State)
    requires Inv(h, n, s) && Enabled(h, n, s, StoreBucket)
    ensures Inv(h, n, Do(h, n, s, StoreBucket))
  {
    var p := s.writer.p;
    var s' := Do(h, n, s, StoreBucket);
    assert s'.log[..|s.log|] == s.log;
    HeadsAppend(h, n, s.log, p);
  }

  lemma PersistBucketInv(h: Hash, n: nat, s: State)
    requires Inv(h, n, s) && Enabled(h, n, s, PersistBucket)
    ensures Inv(h, n, Do(h, n, s, PersistBucket))
  {
    assert Durable(s) + [s.writer.p] == s.log;
    PublishRepresents(h, n, s.file, Durable(s), s.writer.p);
    IdleInv(h, n, Do(h, n, s, PersistBucket));
  }

  lemma IdleInv(h: Hash, n: nat, s: State)
    requires Shape(n, s) && s.writer.Idle? && s.writePos == |s.file|
    requires Represents(h, n, s.file, s.log) && s.buckets == Heads(h, n, s.log)
    ensures Inv(h, n, s)
  {
    assert Durable(s) == s.log;
  }

  lemma CrashInv(h: Hash, n: nat, s: State)
    requires Inv(h, n, s)
    ensures Inv(h, n, Do(h, n, s, CrashAndReopen))
  {
    assert Durable(Do(h, n, s, CrashAndReopen)) == Durable(s);
  }

  lemma StepInv(h: Hash, n: nat, s: State, step: Step)
    requires Inv(h, n, s) && Enabled(h, n, s, step)
    ensures Inv(h, n, Do(h, n, s, step))
  {
    match step
    case Begin(_, _, _, _) => BeginInv(h, n, s, step);
    case WriteBytes(count) => WriteBytesInv(h, n, s, count);
    case BumpWritePos => BumpWritePosInv(h, n, s);
    case StoreBucket => StoreBucketInv(h, n, s);
    case PersistBucket => PersistBucketInv(h, n, s);
    case Load(_, _) => ReadersFree(h, n, s, Do(h, n, s, step));
    case Follow(_) => ReadersFree(h, n, s, Do(h, n, s, step));
    case CrashAndReopen => CrashInv(h, n, s);
  }

  /** The invariant does not mention the readers. */
  lemma ReadersFree(h: Hash, n: nat, s: State, s': State)
    requires Inv(h, n, s) && s' == s.(readers := s'.readers)
    ensures Inv(h, n, s')
  {
  }

  lemma WriteBytesInv(h: Hash, n: nat, s: State, count: nat)
    requires Inv(h, n, s) && Enabled(h, n, s, WriteBytes(count))
    ensures Inv(h, n, Do(h, n, s, WriteBytes(count)))
  {
    WriteBytesFaithful(h, n, s, count);
    WriteBytesProgress(h, n, s, count);
  }

  lemma WriteBytesFaithful(h: Hash, n: nat, s: State, count: nat)
    requires Faithful(h, n, s) && Enabled(h, n, s, WriteBytes(count))
    ensures Faithful(h, n, Do(h, n, s, WriteBytes(count)))
  {
    var w := s.writer.written;
    Grow(h, n, s.file, Encode(s.writer.p.entry)[w..w + count], s.log);
  }

  lemma WriteBytesProgress(h: Hash, n: nat, s: State, count: nat)
    requires Shape(n, s) && InProgress(h, n, s) && Enabled(h, n, s, WriteBytes(count))
    ensures InProgress(h, n, Do(h, n, s, WriteBytes(count)))
  {
    MoreBytes(s.file, s.writePos, Encode(s.writer.p.entry), s.writer.written, count);
  }

  // ---- Runs ----

  ghost predicate Legal(h: Hash, n: nat, s: State, steps: seq<Step>)
    requires Shape(n, s)
    decreases |steps|
  {
    steps == [] || (Enabled(h, n, s, steps[0]) && Legal(h, n, Do(h, n, s, steps[0]), steps[1..]))
  }

  /** The state a legal run of steps leads to. */
  ghost function Exec(h: Hash, n: nat, s: State, steps: seq<Step>): (s': State)
    requires Shape(n, s) && Legal(h, n, s, steps)
    ensures Shape(n, s')
    decreases |steps|
  {
    if steps == [] then s else Exec(h, n, Do(h, n, s, steps[0]), steps[1..])
  }

  /** The state is reached from a fresh index by some run. */
  ghost predicate Reachable(h: Hash, n: nat, s: State) {
    && 0 < n && DataBase(n) < TWO_63
    && exists steps :: Legal(h, n, Initial(n), steps) && s == Exec(h, n, Initial(n), steps)
  }

  lemma {:induction false} RunInv(h: Hash, n: nat, s: State, steps: seq<Step>)
    requires Inv(h, n, s) && Legal(h, n, s, steps)
    ensures Inv(h, n, Exec(h, n, s, steps))
    decreases |steps|
  {
    if steps != [] {
      StepInv(h, n, s, steps[0]);
      RunInv(h, n, Do(h, n, s, steps[0]), steps[1..]);
    }
  }

  lemma ReachableInv(h: Hash, n: nat, s: State)
    requires Reachable(h, n, s)
    ensures Inv(h, n, s)
  {
    var steps :| Legal(h, n, Initial(n), steps) && s == Exec(h, n, Initial(n), steps);
    InitialInv(h, n);
    RunInv(h, n, Initial(n), steps);
  }

  /** The steps of one operation that nothing interrupts. */
  function Operation(op: Step): seq<Step>
    requires op.Begin?
  {
    [op] + ([WriteBytes(FIXED + |op.key|)] + ([BumpWritePos] + ([StoreBucket] + ([PersistBucket] + []))))
  }

  /** The entry the operation adds. */
  function Added(h: Hash, n: nat, s: State, op: Step): Placed
    requires n > 0 && op.Begin?
  {
    var next := AsOffset(Head(h, n, s.log, Slot(h, n, op.key)));
    Placed(|s.file|, IndexEntry(next, op.key, op.addr, op.expiresAt, op.deleted))
  }

  lemma OneStep(h: Hash, n: nat, s: State, step: Step, rest: seq<Step>)
    requires Shape(n, s) && Enabled(h, n, s, step) && Legal(h, n, Do(h, n, s, step), rest)
    ensures Legal(h, n, s, [step] + rest) && Exec(h, n, s, [step] + rest) == Exec(h, n, Do(h, n, s, step), rest)
  {
    assert ([step] + rest)[0] == step && ([step] + rest)[1..] == rest;
  }

  /** An uninterrupted operation leaves the file exactly as the index's own append-and-publish does. */
  lemma OperationIsAppendAndPublish(h: Hash, n: nat, s: State, op: Step)
    requires Inv(h, n, s) && op.Begin? && Enabled(h, n, s, op)
    ensures Legal(h, n, s, Operation(op))
    ensures var s' := Exec(h, n, s, Operation(op)); var p := Added(h, n, s, op);
            && s'.log == s.log + [p] && s'.writer.Idle? && s'.readers == s.readers
            && s'.file == Publish(h, n, s.file + Encode(p.entry), p)
  {
    var s1 := Do(h, n, s, op);
    var p := Added(h, n, s, op);
    assert s1.writer == Appending(p, 0);
    var write := WriteBytes(FIXED + |op.key|);
    assert Encode(p.entry)[0..EncodedSize(p.entry)] == Encode(p.entry);
    var s2 := Do(h, n, s1, write);
    var s3 := Do(h, n, s2, BumpWritePos);
    var s4 := Do(h, n, s3, StoreBucket);
    OneStep(h, n, s4, PersistBucket, []);
    OneStep(h, n, s3, StoreBucket, [PersistBucket] + []);
    OneStep(h, n, s2, BumpWritePos, [StoreBucket] + ([PersistBucket] + []));
    OneStep(h, n, s1, write, [BumpWritePos] + ([StoreBucket] + ([PersistBucket] + [])));
    OneStep(h, n, s, op, [write] + ([BumpWritePos] + ([StoreBucket] + ([PersistBucket] + []))));
  }

  // ---- Lock-free reads are linearizable ----

  /** The reader's remaining walk leads to `v`: it stands at the head of some chain in which the key means `v`. */
  ghost predicate LeadsTo(h: Hash, n: nat, file: seq<Byte>, r: Reader, v: Option<Cell>)
    requires n > 0
  {
    match r
    case Done(_, result) => result == v
    case Walking(key, off) =>
      exists ahead :: Chained(h, n, file, ahead)
                      && off == Head(h, n, ahead, Slot(h, n, key)) && v == Find(Contents(ahead), key)
  }

  /** One iteration keeps the reader on track, and brings it strictly closer to the end of its chain. */
  lemma FollowLeads(h: Hash, n: nat, file: seq<Byte>, r: Reader, v: Option<Cell>)
    requires n > 0 && r.Walking? && LeadsTo(h, n, file, r, v)
    ensures LeadsTo(h, n, file, FollowOnce(file, r), v)
    ensures FollowOnce(file, r).Walking? ==> FollowOnce(file, r).off < r.off
    ensures FollowOnce(file, r).key == r.key
  {
    var ahead :| Chained(h, n, file, ahead)
                 && r.off == Head(h, n, ahead, Slot(h, n, r.key)) && v == Find(Contents(ahead), r.key);
    FollowFrom(h, n, file, r, ahead);
  }

  lemma FollowFrom(h: Hash, n: nat, file: seq<Byte>, r: Reader, ahead: seq<Placed>)
    requires n > 0 && r.Walking? && Chained(h, n, file, ahead) && r.off == Head(h, n, ahead, Slot(h, n, r.key))
    ensures LeadsTo(h, n, file, FollowOnce(file, r), Find(Contents(ahead), r.key))
    ensures FollowOnce(file, r).Walking? ==> FollowOnce(file, r).off < r.off
    ensures FollowOnce(file, r).key == r.key
  {
    if r.off == 0 {
      ChainEnd(h, n, file, ahead, Slot(h, n, r.key));
    } else {
      var j := ChainStep(h, n, file, ahead, Slot(h, n, r.key));
      assert Chained(h, n, file, ahead[..j]);
    }
  }

  /** No step touches bytes of the data region that are already there. */
  lemma DataRegionStays(h: Hash, n: nat, s: State, step: Step)
    requires Shape(n, s) && Enabled(h, n, s, step)
    ensures var file' := Do(h, n, s, step).file;
            |s.file| <= |file'| && file'[DataBase(n)..|s.file|] == s.file[DataBase(n)..|s.file|]
  {
    match step
    case PersistBucket => PublishElsewhere(h, n, s.file, s.writer.p);
    case WriteBytes(count) =>
      var w := s.writer.written;
      SliceOfPrefix(s.file, Encode(s.writer.p.entry)[w..w + count], DataBase(n), |s.file|);
    case _ =>
  }

  lemma StaysOnTrack(h: Hash, n: nat, s: State, step: Step, r: Reader, v: Option<Cell>)
    requires Shape(n, s) && Enabled(h, n, s, step) && LeadsTo(h, n, s.file, r, v)
    ensures LeadsTo(h, n, Do(h, n, s, step).file, r, v)
  {
    if r.Walking? {
      var ahead :| Chained(h, n, s.file, ahead)
                   && r.off == Head(h, n, ahead, Slot(h, n, r.key)) && v == Find(Contents(ahead), r.key);
      DataRegionStays(h, n, s, step);
      ChainedFrame(h, n, s.file, Do(h, n, s, step).file, ahead);
    }
  }

  /** Any other step, or the reader's own, keeps a lookup on its way to `v`. */
  lemma OneMoreStep(h: Hash, n: nat, s: State, step: Step, id: nat, v: Option<Cell>)
    requires Shape(n, s) && Enabled(h, n, s, step) && !step.CrashAndReopen?
    requires id in s.readers && LeadsTo(h, n, s.file, s.readers[id], v)
    ensures var s' := Do(h, n, s, step);
            && id in s'.readers && s'.readers[id].key == s.readers[id].key
            && LeadsTo(h, n, s'.file, s'.readers[id], v)
  {
    if step == Follow(id) {
      FollowLeads(h, n, s.file, s.readers[id], v);
    } else {
      StaysOnTrack(h, n, s, step, s.readers[id], v);
    }
  }

  lemma {:induction false} StaysLeading(h: Hash, n: nat, s: State, steps: seq<Step>, id: nat, v: Option<Cell>)
    requires Shape(n, s) && Legal(h, n, s, steps) && CrashAndReopen !in steps
    requires id in s.readers && LeadsTo(h, n, s.file, s.readers[id], v)
    ensures var s' := Exec(h, n, s, steps);
            && id in s'.readers && s'.readers[id].key == s.readers[id].key
            && LeadsTo(h, n, s'.file, s'.readers[id], v)
    decreases |steps|
  {
    if steps != [] {
      OneMoreStep(h, n, s, steps[0], id, v);
      StaysLeading(h, n, Do(h, n, s, steps[0]), steps[1..], id, v);
    }
  }

  /**
   In every run, a lookup that loads its bucket head in state `s` and finishes returns what the index held in `s`,
   however its loop interleaves with the writer's steps and with other readers.
   */
  lemma ReadsAreLinearizable(h: Hash, n: nat, s: State, id: nat, key: Key, steps: seq<Step>)
    requires Reachable(h, n, s) && Shape(n, s) && Enabled(h, n, s, Load(id, key))
    requires Legal(h, n, Do(h, n, s, Load(id, key)), steps) && CrashAndReopen !in steps
    ensures var s' := Exec(h, n, Do(h, n, s, Load(id, key)), steps);
            && id in s'.readers && s'.readers[id].key == key
            && (s'.readers[id].Done? ==> s'.readers[id].result == Find(Contents(s.log), key))
  {
    ReachableInv(h, n, s);
    assert Chained(h, n, s.file, s.log);
    StaysLeading(h, n, Do(h, n, s, Load(id, key)), steps, id, Find(Contents(s.log), key));
  }

  /** Left alone, a lookup on its way to `v` arrives there. */
  lemma {:induction false} WalkFinishes(h: Hash, n: nat, s: State, id: nat, v: Option<Cell>) returns (steps: seq<Step>)
    requires Shape(n, s) && id in s.readers && LeadsTo(h, n, s.file, s.readers[id], v)
    ensures Legal(h, n, s, steps) && forall i :: 0 <= i < |steps| ==> steps[i] == Follow(id)
    ensures var s' := Exec(h, n, s, steps); id in s'.readers && s'.readers[id] == Done(s.readers[id].key, v)
    decreases if s.readers[id].Walking? then s.readers[id].off + 1 else 0
  {
    if s.readers[id].Done? {
      steps := [];
    } else {
      var s' := Do(h, n, s, Follow(id));
      FollowLeads(h, n, s.file, s.readers[id], v);
      var rest := WalkFinishes(h, n, s', id, v);
      OneStep(h, n, s, Follow(id), rest);
      steps := [Follow(id)] + rest;
    }
  }

  /** In every reachable state, whatever the writer has left unfinished, a lookup can be run to its answer alone. */
  lemma LookupsFinish(h: Hash, n: nat, s: State, id: nat, key: Key) returns (steps: seq<Step>)
    requires Reachable(h, n, s) && id !in s.readers
    ensures Shape(n, s) && Legal(h, n, s, [Load(id, key)] + steps)
    ensures forall i :: 0 <= i < |steps| ==> steps[i] == Follow(id)
    ensures var s' := Exec(h, n, s, [Load(id, key)] + steps);
            id in s'.readers && s'.readers[id] == Done(key, Find(Contents(s.log), key))
  {
    ReachableInv(h, n, s);
    assert Chained(h, n, s.file, s.log);
    steps := WalkFinishes(h, n, Do(h, n, s, Load(id, key)), id, Find(Contents(s.log), key));
    OneStep(h, n, s, Load(id, key), steps);
  }

  // ---- Crashes are atomic ----

  /** The map before the operation in progress, if any. */
  function Before(s: State): map<Key, Cell> { Contents(Durable(s)) }

  /** The map once the operation in progress, if any, has taken effect. */
  function After(s: State): map<Key, Cell> {
    if s.writer.Idle? then Before(s) else Update(Before(s), s.writer.p.entry)
  }

  /**
   In every reachable state, across any number of crashes, the bytes on disk answer every lookup as the map before the
   operation in progress; once its last write is done, as the map after it.
   */
  lemma DiskIsBeforeOrAfter(h: Hash, n: nat, s: State, key: Key)
    requires Reachable(h, n, s)
    ensures Inv(h, n, s)
    ensures DiskGet(h, n, s.file, key) == Find(Before(s), key)
    ensures Enabled(h, n, s, PersistBucket) ==>
              DiskGet(h, n, Do(h, n, s, PersistBucket).file, key) == Find(After(s), key)
  {
    ReachableInv(h, n, s);
    DiskIsBefore(h, n, s, key);
    if Enabled(h, n, s, PersistBucket) {
      DiskAfterPersist(h, n, s, key);
    }
  }

  lemma DiskIsBefore(h: Hash, n: nat, s: State, key: Key)
    requires Inv(h, n, s)
    ensures DiskGet(h, n, s.file, key) == Find(Before(s), key)
  {
    DiskGetFinds(h, n, s.file, Durable(s), key);
  }

  lemma DiskAfterPersist(h: Hash, n: nat, s: State, key: Key)
    requires Inv(h, n, s) && Enabled(h, n, s, PersistBucket)
    ensures DiskGet(h, n, Do(h, n, s, PersistBucket).file, key) == Find(After(s), key)
  {
    PersistBucketInv(h, n, s);
    DiskIsBefore(h, n, Do(h, n, s, PersistBucket), key);
    CrashMeaning(h, n, s);
  }

  /** The abstract map moves at a bucket store, which applies the operation's entry. */
  lemma StoreMeaning(h: Hash, n: nat, s: State)
    requires Shape(n, s) && Enabled(h, n, s, StoreBucket)
    ensures Contents(Do(h, n, s, StoreBucket).log) == Update(Contents(s.log), s.writer.p.entry)
    ensures Contents(s.log) == Before(s)
  {
    assert (s.log + [s.writer.p])[..|s.log|] == s.log;
  }

  /** A crash takes back at most the operation in progress, and only when its last write had not been made. */
  lemma CrashMeaning(h: Hash, n: nat, s: State)
    requires Shape(n, s) && PendingIsNewest(s)
    ensures Contents(Do(h, n, s, CrashAndReopen).log) == Before(s)
    ensures Contents(s.log) == if s.writer.Published? then After(s) else Before(s)
  {
  }

  // ---- Every run is a run of a map ----

  datatype MapOp = MapOp(key: Key, addr: NeedleAddr, expiresAt: Int64, deleted: bool)

  /** The reference: a map, the map a crash falls back to, and the operation under way. No file, no log, no offsets. */
  datatype MapState = MapState(now: map<Key, Cell>, disk: map<Key, Cell>, op: Option<MapOp>)

  const NEW_MAP := MapState(map[], map[], None)

  function Apply(m: map<Key, Cell>, op: Option<MapOp>): map<Key, Cell> {
    match op
    case None => m
    case Some(o) => if o.deleted then m - {o.key} else m[o.key := Cell(o.addr, o.expiresAt)]
  }

  /** An operation takes effect at the bucket store and is durable with the bucket write; until then a crash undoes it. */
  function MapStep(m: MapState, step: Step): MapState {
    match step
    case Begin(key, addr, expiresAt, deleted) => m.(op := Some(MapOp(key, addr, expiresAt, deleted)))
    case StoreBucket => m.(now := Apply(m.now, m.op))
    case PersistBucket => MapState(m.now, m.now, None)
    case CrashAndReopen => MapState(m.disk, m.disk, None)
    case _ => m
  }

  function MapRun(m: MapState, steps: seq<Step>): MapState
    decreases |steps|
  {
    if steps == [] then m else MapRun(MapStep(m, steps[0]), steps[1..])
  }

  ghost predicate Simulates(s: State, m: MapState) {
    && Contents(s.log) == m.now && Before(s) == m.disk
    && (s.writer.Idle? ==> m.op == None)
    && (!s.writer.Idle? ==> var e := s.writer.p.entry; m.op == Some(MapOp(e.key, e.addr, e.expiresAt, e.deleted)))
  }

  lemma StepSimulates(h: Hash, n: nat, s: State, step: Step, m: MapState)
    requires Shape(n, s) && PendingIsNewest(s) && Enabled(h, n, s, step) && Simulates(s, m)
    ensures Simulates(Do(h, n, s, step), MapStep(m, step))
  {
    if step.StoreBucket? {
      StoreMeaning(h, n, s);
      assert Do(h, n, s, step).log[..|s.log|] == s.log;
    } else if step.CrashAndReopen? {
      CrashMeaning(h, n, s);
    }
  }

  lemma {:induction false} RunSimulates(h: Hash, n: nat, s: State, steps: seq<Step>, m: MapState)
    requires Inv(h, n, s) && Legal(h, n, s, steps) && Simulates(s, m)
    ensures Simulates(Exec(h, n, s, steps), MapRun(m, steps))
    decreases |steps|
  {
    if steps != [] {
      StepSimulates(h, n, s, steps[0], m);
      StepInv(h, n, s, steps[0]);
      RunSimulates(h, n, Do(h, n, s, steps[0]), steps[1..], MapStep(m, steps[0]));
    }
  }

  /**
   Every run of the index, crashes included, is a run of the reference: what lookups find is its map, and what the bytes
   on disk answer is the map it falls back to.
   */
  lemma RunsRefineMap(h: Hash, n: nat, steps: seq<Step>, key: Key)
    requires 0 < n && DataBase(n) < TWO_63 && Legal(h, n, Initial(n), steps)
    ensures var s := Exec(h, n, Initial(n), steps); var m := MapRun(NEW_MAP, steps);
            Contents(s.log) == m.now && DiskGet(h, n, s.file, key) == Find(m.disk, key)
  {
    InitialInv(h, n);
    RunSimulates(h, n, Initial(n), steps, NEW_MAP);
    RunInv(h, n, Initial(n), steps);
    var s := Exec(h, n, Initial(n), steps);
    DiskGetFinds(h, n, s.file, Durable(s), key);
  }

  // ---- The linear scan after crashes ----

  /** How many bytes of the entry in progress are in the file. */
  function Landed(s: State): nat {
    match s.writer
    case Idle => 0
    case Appending(_, w) => w
    case Appended(p) => EncodedSize(p.entry)
    case Published(p) => EncodedSize(p.entry)
  }

  /** The file ends with a part of an entry. */
  predicate Torn(s: State) {
    s.writer.Appending? && 0 < s.writer.written < EncodedSize(s.writer.p.entry)
  }

  /** The whole entries of the data region once the writer is where it is, published or not. */
  function Whole(s: State, es: seq<IndexEntry>): seq<IndexEntry> {
    if s.writer.Appending? && s.writer.written == EncodedSize(s.writer.p.entry) then es + [s.writer.p.entry] else es
  }

  /** How a step adds to the entries below the append position: at its move, or when a crash leaves a whole one behind. */
  function Lay(s: State, step: Step, es: seq<IndexEntry>): seq<IndexEntry> {
    match step
    case BumpWritePos => if s.writer.Appending? then es + [s.writer.p.entry] else es
    case CrashAndReopen => Whole(s, es)
    case _ => es
  }

  /** Every crash of the run leaves nothing or the whole of the interrupted entry behind. */
  ghost predicate CleanCrashes(h: Hash, n: nat, s: State, steps: seq<Step>)
    requires Shape(n, s) && Legal(h, n, s, steps)
    decreases |steps|
  {
    steps == [] ||
    ((steps[0].CrashAndReopen? ==> !Torn(s)) && CleanCrashes(h, n, Do(h, n, s, steps[0]), steps[1..]))
  }

  /** All entries the run has laid out below the append position. */
  ghost function LaidBy(h: Hash, n: nat, s: State, steps: seq<Step>, es: seq<IndexEntry>): seq<IndexEntry>
    requires Shape(n, s) && Legal(h, n, s, steps)
    decreases |steps|
  {
    if steps == [] then es else LaidBy(h, n, Do(h, n, s, steps[0]), steps[1..], Lay(s, steps[0], es))
  }

  ghost predicate LaidState(n: nat, s: State, es: seq<IndexEntry>) {
    DataBase(n) <= s.writePos <= |s.file| && LaidOut(s.file, DataBase(n), es, s.writePos)
  }

  /** The entry in progress, once all its bytes are there, lies at the append position. */
  lemma WholeIsLaid(h: Hash, n: nat, s: State, es: seq<IndexEntry>)
    requires Shape(n, s) && InProgress(h, n, s) && LaidState(n, s, es)
    requires s.writer.Appending? && s.writer.written == EncodedSize(s.writer.p.entry)
    ensures LaidOut(s.file, DataBase(n), es + [s.writer.p.entry], |s.file|)
  {
    WholeEntry(s.file, s.writer.p);
    LaidOutMore(s.file, DataBase(n), es, s.writePos, s.writer.p.entry);
  }

  lemma StepLaid(h: Hash, n: nat, s: State, step: Step, es: seq<IndexEntry>)
    requires Shape(n, s) && InProgress(h, n, s) && LaidState(n, s, es)
    requires Enabled(h, n, s, step) && (step.CrashAndReopen? ==> !Torn(s))
    ensures LaidState(n, Do(h, n, s, step), Lay(s, step, es))
  {
    if (step.BumpWritePos? || step.CrashAndReopen?)
       && s.writer.Appending? && s.writer.written == EncodedSize(s.writer.p.entry) {
      WholeIsLaid(h, n, s, es);
    } else {
      LaidStays(h, n, s, step, es);
    }
  }

  /** No step disturbs what is laid out. */
  lemma LaidStays(h: Hash, n: nat, s: State, step: Step, es: seq<IndexEntry>)
    requires Shape(n, s) && LaidState(n, s, es) && Enabled(h, n, s, step)
    ensures var file' := Do(h, n, s, step).file; s.writePos <= |file'| && LaidOut(file', DataBase(n), es, s.writePos)
  {
    var file' := Do(h, n, s, step).file;
    DataRegionStays(h, n, s, step);
    SliceOfEqual(file', s.file, DataBase(n), |s.file|, DataBase(n), s.writePos);
    LaidOutFrame(s.file, file', DataBase(n), es, s.writePos);
  }

  lemma {:induction false} RunLaid(h: Hash, n: nat, s: State, steps: seq<Step>, es: seq<IndexEntry>)
    requires Inv(h, n, s) && LaidState(n, s, es) && Legal(h, n, s, steps) && CleanCrashes(h, n, s, steps)
    ensures Inv(h, n, Exec(h, n, s, steps)) && LaidState(n, Exec(h, n, s, steps), LaidBy(h, n, s, steps, es))
    decreases |steps|
  {
    if steps != [] {
      StepInv(h, n, s, steps[0]);
      StepLaid(h, n, s, steps[0], es);
      RunLaid(h, n, Do(h, n, s, steps[0]), steps[1..], Lay(s, steps[0], es));
    }
  }

  lemma ScanOfState(h: Hash, n: nat, s: State, es: seq<IndexEntry>)
    requires Inv(h, n, s) && LaidState(n, s, es)
    ensures SpelledBy(s.file, n) == if Torn(s) then None else Some(MapOf(Whole(s, es)))
  {
    ReaderDecodes(s.file, |s.file|);
    if s.writer.Appending? {
      ScanOfTornLog(s.file, DecoderOf(s.file), DataBase(n), es, s.writePos, s.writer.p.entry, s.writer.written);
    } else {
      ScanOfWhole(s.file, DecoderOf(s.file), DataBase(n), es);
    }
  }

  /**
   Over any number of crashes that each left nothing or a whole entry behind: the linear scan fails exactly when the file
   ends with a part of an entry, and otherwise spells out every whole entry, those no crash let be published included.
   */
  lemma ScanAfterCleanCrashes(h: Hash, n: nat, steps: seq<Step>)
    requires 0 < n && DataBase(n) < TWO_63
    requires Legal(h, n, Initial(n), steps) && CleanCrashes(h, n, Initial(n), steps)
    ensures var s := Exec(h, n, Initial(n), steps);
            SpelledBy(s.file, n) ==
            if Torn(s) then None else Some(MapOf(Whole(s, LaidBy(h, n, Initial(n), steps, []))))
  {
    InitialInv(h, n);
    RunLaid(h, n, Initial(n), steps, []);
    ScanOfState(h, n, Exec(h, n, Initial(n), steps), LaidBy(h, n, Initial(n), steps, []));
  }

  /** Without a crash, the entries laid out are the published ones, and the one about to be. */
  ghost predicate AllPublished(s: State, es: seq<IndexEntry>) {
    es == Entries(s.log) + if s.writer.Appended? then [s.writer.p.entry] else []
  }

  lemma StepAllPublished(h: Hash, n: nat, s: State, step: Step, es: seq<IndexEntry>)
    requires Shape(n, s) && Enabled(h, n, s, step) && !step.CrashAndReopen? && AllPublished(s, es)
    ensures AllPublished(Do(h, n, s, step), Lay(s, step, es))
  {
    assert Entries(s.log) + [] == Entries(s.log);
    if step.StoreBucket? {
      assert (s.log + [s.writer.p])[..|s.log|] == s.log;
      assert Entries(s.log + [s.writer.p]) + [] == Entries(s.log + [s.writer.p]);
    }
  }

  lemma {:induction false} RunAllPublished(h: Hash, n: nat, s: State, steps: seq<Step>, es: seq<IndexEntry>)
    requires Shape(n, s) && Legal(h, n, s, steps) && CrashAndReopen !in steps && AllPublished(s, es)
    ensures CleanCrashes(h, n, s, steps)
    ensures AllPublished(Exec(h, n, s, steps), LaidBy(h, n, s, steps, es))
    decreases |steps|
  {
    if steps != [] {
      StepAllPublished(h, n, s, steps[0], es);
      RunAllPublished(h, n, Do(h, n, s, steps[0]), steps[1..], Lay(s, steps[0], es));
    }
  }

  /** What the whole entries spell out at each point of an operation no crash preceded. */
  lemma WholeMeans(s: State, es: seq<IndexEntry>)
    requires PendingIsNewest(s) && AllPublished(s, es) && !Torn(s)
    requires s.writer.Appending? ==> s.writer.written <= EncodedSize(s.writer.p.entry)
    ensures MapOf(Whole(s, es)) == if Landed(s) == 0 then Before(s) else After(s)
  {
    MapOfEntries(s.log);
    assert Entries(s.log) + [] == Entries(s.log);
    match s.writer
    case Idle =>
    case Appending(p, _) => MapOfMore(s.log, p.entry);
    case Appended(p) => MapOfMore(s.log, p.entry);
    case Published(p) =>
  }

  lemma MapOfMore(log: seq<Placed>, e: IndexEntry)
    ensures MapOf(Entries(log) + [e]) == Update(Contents(log), e)
  {
    MapOfEntries(log);
    assert (Entries(log) + [e])[..|Entries(log)|] == Entries(log);
  }

  /**
   A process dies for the first time, at any point of any run, and its file is scanned linearly. The scan agrees with
   the lookups, which go by the map before the operation in progress, exactly when nothing of that operation was
   written, or all of its entry was and that entry changes nothing.
   */
  lemma ScanAgreesAfterFirstCrashIff(h: Hash, n: nat, steps: seq<Step>)
    requires 0 < n && DataBase(n) < TWO_63
    requires Legal(h, n, Initial(n), steps) && CrashAndReopen !in steps
    ensures var s := Exec(h, n, Initial(n), steps);
            SpelledBy(s.file, n) == Some(Before(s))
            <==> Landed(s) == 0 || (Landed(s) == EncodedSize(s.writer.p.entry) && After(s) == Before(s))
  {
    var s, es := Exec(h, n, Initial(n), steps), LaidBy(h, n, Initial(n), steps, []);
    RunAllPublished(h, n, Initial(n), steps, []);
    InitialInv(h, n);
    RunInv(h, n, Initial(n), steps);
    ScanAfterCleanCrashes(h, n, steps);
    if !Torn(s) {
      WholeMeans(s, es);
    }
  }

  /** In every index, one byte of a first append is enough to make the linear scan fail. */
  lemma OneByteFailsScan(h: Hash, n: nat)
    requires 0 < n && DataBase(n) + FIXED < TWO_63
    ensures exists steps :: Legal(h, n, Initial(n), steps) && CrashAndReopen !in steps
                            && SpelledBy(Exec(h, n, Initial(n), steps).file, n).None?
  {
    var begin, write := Begin([], NO_ADDR, 0, false), WriteBytes(1);
    var s1 := Do(h, n, Initial(n), begin);
    var s2 := Do(h, n, s1, write);
    OneStep(h, n, s1, write, []);
    OneStep(h, n, Initial(n), begin, [write] + []);
    var steps := [begin] + ([write] + []);
    assert Torn(s2);
    RunAllPublished(h, n, Initial(n), steps, []);
    ScanAfterCleanCrashes(h, n, steps);
  }
}
