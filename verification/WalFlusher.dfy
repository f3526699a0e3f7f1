/**
 The write-ahead-log flusher: one goroutine that takes messages off a queue in batches, writes them through a buffered
 writer, flushes, syncs and signals in separate steps, swaps files for compaction, answers barriers and drains the queue
 at shutdown. Writers enqueue between any two steps. Runs without I/O errors.
 */
module WalFlusher {
  import opened Bytes

  const QUEUE_CAP: nat := 1024
  const BATCH_CAP: nat := 512

  datatype Mode = EverySec | Always | Never

  type Line = seq<Byte>

  datatype Msg = Data(line: Line) | Swap | Barrier

  /** What the flusher appended to one file, and how many of those lines have reached the disk. */
  datatype WalFile = WalFile(lines: seq<Line>, synced: nat)

  /** What follows the flush of a batch: the main loop, a special message, or the end. */
  datatype After = Resume | Handle(m: Msg) | Leave

  datatype Phase =
    | Waiting
    | Draining
    | ShuttingDown
    | Writing(after: After)             // lines go from the batch into the buffered writer
    | Written(after: After)             // the buffered writer has been flushed
    | Signalling(after: After)          // synced as the mode asks; callers are told one by one
    | Taken(m: Msg, down: bool)         // a special message off the queue, `down` during shutdown
    | Synced(m: Msg, down: bool)        // flushed, and synced as the mode asks; the answer is next
    | Leaving                           // the final sync is next
    | Exited

  /**
   `batch` holds lines taken and not yet written, `buf` lines in the buffered writer, `owed` the number of lines written
   for callers not yet told. `acked` counts the callers told; they wait only in mode Always.
   */
  datatype State = State(mode: Mode, queue: seq<Msg>, batch: seq<Line>, buf: seq<Line>, closed: seq<WalFile>,
                         cur: WalFile, pendingSync: bool, owed: nat, acked: nat, stop: bool, phase: Phase)

  function Initial(mode: Mode): State {
    State(mode, [], [], [], [], WalFile([], 0), false, 0, 0, false, Waiting)
  }

  // ---- Steps ----

  datatype Step =
    | Enqueue(m: Msg)
    | Stop
    | Tick
    | Receive          // the first message of a turn
    | Drain            // one more message, without blocking
    | EndDrain
    | WriteLine
    | Spill(k: nat)    // the buffered writer is full and writes some of its lines through
    | FlushBuffer
    | SyncBatch
    | Signal
    | EndBatch
    | SyncSpecial
    | Reply
    | BeginShutdown
    | TakeLast         // one message of the shutdown drain
    | EndShutdown
    | FinalSync

  predicate Enabled(s: State, step: Step) {
    match step
    case Enqueue(_) => |s.queue| < QUEUE_CAP
    case Stop => !s.stop
    case Tick => s.phase.Waiting? && s.pendingSync
    case Receive => s.phase.Waiting? && s.queue != []
    case Drain => s.phase.Draining? && |s.batch| < BATCH_CAP && s.queue != []
    case EndDrain => s.phase.Draining? && (|s.batch| >= BATCH_CAP || s.queue == [])
    case WriteLine => s.phase.Writing? && s.batch != []
    case Spill(k) => s.phase.Writing? && k <= |s.buf|
    case FlushBuffer => s.phase.Writing? && s.batch == []
    case SyncBatch => s.phase.Written?
    case Signal => s.phase.Signalling? && s.owed > 0
    case EndBatch => s.phase.Signalling? && s.owed == 0
    case SyncSpecial => s.phase.Taken?
    case Reply => s.phase.Synced?
    case BeginShutdown => s.phase.Waiting? && s.stop
    case TakeLast => s.phase.ShuttingDown? && s.queue != []
    case EndShutdown => s.phase.ShuttingDown? && s.queue == []
    case FinalSync => s.phase.Leaving?
  }

  function SyncFile(f: WalFile): WalFile { f.(synced := |f.lines|) }

  function Extended(f: WalFile, lines: seq<Line>): WalFile { f.(lines := f.lines + lines) }

  /** Takes the head of the queue: a line joins the batch, a special message is put where `special` says. */
  function Take(s: State, line: Phase, special: Phase): State
    requires s.queue != []
  {
    var m, r := s.queue[0], s.(queue := s.queue[1..]);
    if m.Data? then r.(batch := s.batch + [m.line], phase := line) else r.(phase := special)
  }

  function Do(s: State, step: Step): State
    requires Enabled(s, step)
  {
    match step
    case Enqueue(m) => s.(queue := s.queue + [m])
    case Stop => s.(stop := true)
    case Tick => s.(cur := SyncFile(s.cur), pendingSync := false)
    case Receive => Take(s, Draining, Taken(s.queue[0], false))
    case Drain => Take(s, Draining, Writing(Handle(s.queue[0])))
    case EndDrain => s.(phase := Writing(Resume))
    case WriteLine => s.(buf := s.buf + [s.batch[0]], batch := s.batch[1..], owed := s.owed + 1)
    case Spill(k) => s.(cur := Extended(s.cur, s.buf[..k]), buf := s.buf[k..])
    case FlushBuffer => s.(cur := Extended(s.cur, s.buf), buf := [], phase := Written(s.phase.after))
    case SyncBatch =>
      var r := s.(phase := Signalling(s.phase.after));
      (match s.mode
       case Always => r.(cur := SyncFile(s.cur), pendingSync := false)
       case EverySec => r.(pendingSync := true)
       case Never => r)
    case Signal => s.(owed := s.owed - 1, acked := s.acked + if s.mode.Always? then 1 else 0)
    case EndBatch =>
      s.(phase := match s.phase.after case Resume => Waiting case Handle(m) => Taken(m, false) case Leave => Leaving)
    case SyncSpecial =>
      var r := s.(cur := Extended(s.cur, s.buf), buf := [], phase := Synced(s.phase.m, s.phase.down));
      if s.mode != Never then r.(cur := SyncFile(r.cur), pendingSync := false) else r
    case Reply =>
      var r := s.(phase := if s.phase.down then ShuttingDown else Waiting);
      if s.phase.m.Swap? then r.(closed := s.closed + [s.cur], cur := WalFile([], 0)) else r
    case BeginShutdown => s.(phase := ShuttingDown)
    case TakeLast => Take(s, ShuttingDown, Taken(s.queue[0], true))
    case EndShutdown => s.(phase := Writing(Leave))
    case FinalSync => s.(cur := SyncFile(s.cur), phase := Exited)
  }

  /** A run of steps leads from `s` to `t`. */
  ghost predicate Ran(s: State, steps: seq<Step>, t: State)
    decreases |steps|
  {
    if steps == [] then s == t else Enabled(s, steps[0]) && Ran(Do(s, steps[0]), steps[1..], t)
  }

  lemma {:induction false} RanMore(s: State, steps: seq<Step>, t: State, more: seq<Step>, u: State)
    requires Ran(s, steps, t) && Ran(t, more, u)
    ensures Ran(s, steps + more, u)
    decreases |steps|
  {
    if steps == [] {
      assert steps + more == more;
    } else {
      RanMore(Do(s, steps[0]), steps[1..], t, more, u);
      assert (steps + more)[1..] == steps[1..] + more;
    }
  }

  lemma RanOne(s: State, step: Step)
    requires Enabled(s, step)
    ensures Ran(s, [step], Do(s, step))
  {
    assert [step][1..] == [];
  }

  lemma RanNext(s: State, steps: seq<Step>, t: State, step: Step)
    requires Ran(s, steps, t) && Enabled(t, step)
    ensures Ran(s, steps + [step], Do(t, step))
  {
    RanOne(t, step);
    RanMore(s, steps, t, [step], Do(t, step));
  }

  // ---- What has been taken, and how much of it is on disk ----

  function LinesOf(files: seq<WalFile>): seq<Line> {
    if files == [] then [] else LinesOf(files[..|files| - 1]) + files[|files| - 1].lines
  }

  function DataOf(queue: seq<Msg>): seq<Line> {
    if queue == [] then []
    else (if queue[0].Data? then [queue[0].line] else []) + DataOf(queue[1..])
  }

  /** The lines in the files, in order. */
  function InFiles(s: State): seq<Line> { LinesOf(s.closed) + s.cur.lines }

  /** Every line taken off the queue, in order: in a file, in the buffered writer, or in the batch. */
  function Taking(s: State): seq<Line> { InFiles(s) + s.buf + s.batch }

  /** How many leading lines of the files are on disk: whole files, then the synced part of the first that is not. */
  function Solid(files: seq<WalFile>): nat {
    if files == [] then 0
    else
      var init := files[..|files| - 1];
      if Solid(init) == |LinesOf(init)| then Solid(init) + files[|files| - 1].synced else Solid(init)
  }

  function OnDisk(s: State): nat {
    if Solid(s.closed) == |LinesOf(s.closed)| then Solid(s.closed) + s.cur.synced else Solid(s.closed)
  }

  /** The first `n` lines ever taken are on disk. */
  predicate Durable(s: State, n: nat) { n <= OnDisk(s) }

  lemma ClosingFile(closed: seq<WalFile>, f: WalFile)
    ensures LinesOf(closed + [f]) == LinesOf(closed) + f.lines
    ensures Solid(closed + [f]) ==
            if Solid(closed) == |LinesOf(closed)| then Solid(closed) + f.synced else Solid(closed)
  {
    assert (closed + [f])[..|closed|] == closed;
  }

  lemma {:induction false} DataOfConcat(a: seq<Msg>, b: seq<Msg>)
    ensures DataOf(a + b) == DataOf(a) + DataOf(b)
  {
    if a == [] {
      assert a + b == b;
    } else {
      assert (a + b)[1..] == a[1..] + b;
      DataOfConcat(a[1..], b);
    }
  }

  // ---- Nothing is lost or reordered ----

  /** The line a step brings in. */
  function Incoming(step: Step): seq<Line> {
    if step.Enqueue? && step.m.Data? then [step.m.line] else []
  }

  /** The lines enqueued in a run, in order. */
  function Enqueued(steps: seq<Step>): seq<Line> {
    if steps == [] then [] else Incoming(steps[0]) + Enqueued(steps[1..])
  }

  lemma TakeKeeps(s: State, line: Phase, special: Phase)
    requires s.queue != []
    ensures var s' := Take(s, line, special);
            Taking(s') + DataOf(s'.queue) == Taking(s) + DataOf(s.queue)
  {
    var s', m := Take(s, line, special), s.queue[0];
    if m.Data? {
      Regroup(InFiles(s) + s.buf, s.batch, [m.line], DataOf(s'.queue));
    }
  }

  lemma Regroup(a: seq<Line>, b: seq<Line>, c: seq<Line>, d: seq<Line>)
    ensures a + (b + c) + d == a + b + (c + d)
    ensures a + (b + c) == a + b + c
  {
    assert a + (b + c) == a + b + c;
    assert a + b + c + d == a + b + (c + d);
  }

  lemma WriteLineKeeps(s: State)
    requires Enabled(s, WriteLine)
    ensures Taking(Do(s, WriteLine)) == Taking(s)
  {
    assert [s.batch[0]] + s.batch[1..] == s.batch;
    Regroup(InFiles(s), s.buf, [s.batch[0]], s.batch[1..]);
  }

  lemma WriteThroughKeeps(s: State, k: nat)
    requires k <= |s.buf|
    ensures Taking(s.(cur := Extended(s.cur, s.buf[..k]), buf := s.buf[k..])) == Taking(s)
  {
    var a, b := s.buf[..k], s.buf[k..];
    assert a + b == s.buf;
    assert LinesOf(s.closed) + (s.cur.lines + a) == InFiles(s) + a;
    assert InFiles(s) + a + b == InFiles(s) + (a + b);
  }

  lemma FlushKeeps(s: State, phase: Phase)
    ensures Taking(s.(cur := Extended(s.cur, s.buf), buf := [], phase := phase)) == Taking(s)
  {
    WriteThroughKeeps(s, |s.buf|);
    assert s.buf[..|s.buf|] == s.buf && s.buf[|s.buf|..] == [];
  }

  lemma ReplyKeeps(s: State)
    requires Enabled(s, Reply)
    ensures Taking(Do(s, Reply)) == Taking(s)
  {
    ClosingFile(s.closed, s.cur);
    assert LinesOf(s.closed) + s.cur.lines + [] == InFiles(s);
  }

  /** Steps that put a line or a message from one place to another. */
  predicate Transfers(step: Step) {
    step.WriteLine? || step.Spill? || step.FlushBuffer? || step.SyncSpecial? || step.Reply?
  }

  predicate Takes(step: Step) { step.Receive? || step.Drain? || step.TakeLast? }

  lemma TransferKeeps(s: State, step: Step)
    requires Enabled(s, step) && Transfers(step)
    ensures Taking(Do(s, step)) == Taking(s) && Do(s, step).queue == s.queue
  {
    match step
    case WriteLine => WriteLineKeeps(s);
    case Spill(k) => WriteThroughKeeps(s, k);
    case FlushBuffer => FlushKeeps(s, Do(s, step).phase);
    case SyncSpecial => FlushKeeps(s, Do(s, step).phase);
    case Reply => ReplyKeeps(s);
  }

  lemma TakingKeeps(s: State, step: Step)
    requires Enabled(s, step) && Takes(step)
    ensures Taking(Do(s, step)) + DataOf(Do(s, step).queue) == Taking(s) + DataOf(s.queue)
  {
    match step
    case Receive => TakeKeeps(s, Draining, Taken(s.queue[0], false));
    case Drain => TakeKeeps(s, Draining, Writing(Handle(s.queue[0])));
    case TakeLast => TakeKeeps(s, ShuttingDown, Taken(s.queue[0], true));
  }

  /** One step loses nothing, adds nothing but what it enqueues, and reorders nothing. */
  lemma StepKeeps(s: State, step: Step)
    requires Enabled(s, step)
    ensures Taking(Do(s, step)) + DataOf(Do(s, step).queue) == Taking(s) + DataOf(s.queue) + Incoming(step)
  {
    if step.Enqueue? {
      EnqueueKeeps(s, step.m);
    } else if Takes(step) {
      TakingKeeps(s, step);
    } else if Transfers(step) {
      TransferKeeps(s, step);
    } else {
      OthersMoveNoLine(s, step);
    }
  }

  lemma OthersMoveNoLine(s: State, step: Step)
    requires Enabled(s, step) && !step.Enqueue? && !Takes(step) && !Transfers(step)
    ensures var s' := Do(s, step);
            && s'.closed == s.closed && s'.cur.lines == s.cur.lines
            && s'.buf == s.buf && s'.batch == s.batch && s'.queue == s.queue
  {
  }

  lemma EnqueueKeeps(s: State, m: Msg)
    ensures Taking(s) + DataOf(s.queue + [m]) == Taking(s) + DataOf(s.queue) + DataOf([m])
    ensures DataOf([m]) == Incoming(Enqueue(m))
  {
    assert [m][1..] == [];
    DataOfConcat(s.queue, [m]);
    Regroup(Taking(s), DataOf(s.queue), DataOf([m]), []);
  }

  lemma FirstKeeps(s: State, steps: seq<Step>, t: State) returns (r: State)
    requires steps != [] && Ran(s, steps, t)
    ensures Ran(r, steps[1..], t)
    ensures Taking(r) + DataOf(r.queue) == Taking(s) + DataOf(s.queue) + Incoming(steps[0])
  {
    r := Do(s, steps[0]);
    StepKeeps(s, steps[0]);
  }

  lemma {:induction false} RunKeeps(s: State, steps: seq<Step>, t: State)
    requires Ran(s, steps, t)
    ensures Taking(t) + DataOf(t.queue) == Taking(s) + DataOf(s.queue) + Enqueued(steps)
    decreases |steps|
  {
    var all := Taking(s) + DataOf(s.queue);
    if steps == [] {
      assert all + [] == all;
    } else {
      var r := FirstKeeps(s, steps, t);
      RunKeeps(r, steps[1..], t);
      Regroup(all, Incoming(steps[0]), Enqueued(steps[1..]), []);
    }
  }

  // ---- What every reachable state satisfies ----

  /** Where each part of the state may be in use. */
  ghost predicate Tidy(s: State) {
    && (s.buf != [] ==> s.phase.Writing?)
    && (s.owed > 0 ==> s.phase.Writing? || s.phase.Written? || s.phase.Signalling?)
    && (s.batch != [] ==>
          s.phase.Draining? || s.phase.ShuttingDown? || s.phase.Writing?
          || ((s.phase.Taken? || s.phase.Synced?) && s.phase.down))
  }

  /** What has been synced, by mode. */
  ghost predicate Secured(s: State) {
    && s.cur.synced <= |s.cur.lines|
    && (s.mode != Never ==> Solid(s.closed) == |LinesOf(s.closed)|)
    && (s.mode != Never && s.phase.Synced? ==> s.cur.synced == |s.cur.lines|)
    && (s.mode.Never? ==> Solid(s.closed) == 0 && !s.pendingSync && (s.phase.Exited? || s.cur.synced == 0))
    && (s.phase.Exited? ==> s.cur.synced == |s.cur.lines|)
  }

  /** In mode Always: told callers and owed ones make up the lines written, and told lines are synced. */
  ghost predicate Honest(s: State) {
    s.mode.Always? ==>
      && s.acked + s.owed == |LinesOf(s.closed)| + |s.cur.lines| + |s.buf|
      && s.acked <= |LinesOf(s.closed)| + s.cur.synced
      && (s.phase.Signalling? ==> s.cur.synced == |s.cur.lines|)
  }

  ghost predicate Inv(s: State) { Tidy(s) && Secured(s) && Honest(s) }

  lemma StepTidy(s: State, step: Step)
    requires Tidy(s) && Enabled(s, step)
    ensures Tidy(Do(s, step))
  {
  }

  /** Steps that touch neither a file nor the buffered writer nor the count of callers. */
  predicate Quiet(step: Step) {
    match step
    case Enqueue(_) => true
    case Stop => true
    case Receive => true
    case Drain => true
    case EndDrain => true
    case EndBatch => true
    case BeginShutdown => true
    case TakeLast => true
    case EndShutdown => true
    case _ => false
  }

  /** Such a step changes queue, batch, stop flag and phase only, and enters no phase that promises a sync. */
  lemma QuietSteps(s: State, step: Step)
    requires Enabled(s, step) && Quiet(step)
    ensures var s' := Do(s, step);
            && s' == s.(queue := s'.queue, batch := s'.batch, stop := s'.stop, phase := s'.phase)
            && (s'.phase == s.phase || !(s'.phase.Synced? || s'.phase.Exited? || s'.phase.Signalling?))
            && (s.phase.Exited? ==> s'.phase.Exited?)
  {
  }

  lemma QuietKeeps(s: State, s': State)
    requires Secured(s) && Honest(s)
    requires s' == s.(queue := s'.queue, batch := s'.batch, stop := s'.stop, phase := s'.phase)
    requires s'.phase == s.phase || !(s'.phase.Synced? || s'.phase.Exited? || s'.phase.Signalling?)
    requires s.phase.Exited? ==> s'.phase.Exited?
    ensures Secured(s') && Honest(s')
  {
  }

  lemma SyncSteps(s: State, step: Step)
    requires Inv(s) && Enabled(s, step) && (step.Tick? || step.SyncBatch? || step.SyncSpecial? || step.FinalSync?)
    ensures Secured(Do(s, step)) && Honest(Do(s, step))
  {
  }

  lemma WriteSteps(s: State, step: Step)
    requires Inv(s) && Enabled(s, step) && (step.WriteLine? || step.Spill? || step.FlushBuffer? || step.Signal?)
    ensures Secured(Do(s, step)) && Honest(Do(s, step))
  {
  }

  lemma ReplyStep(s: State)
    requires Inv(s) && Enabled(s, Reply)
    ensures Secured(Do(s, Reply)) && Honest(Do(s, Reply))
  {
    ClosingFile(s.closed, s.cur);
  }

  lemma StepPromises(s: State, step: Step)
    requires Inv(s) && Enabled(s, step)
    ensures Secured(Do(s, step)) && Honest(Do(s, step))
  {
    if Quiet(step) {
      QuietSteps(s, step);
      QuietKeeps(s, Do(s, step));
    } else if step.Reply? {
      ReplyStep(s);
    } else if step.Tick? || step.SyncBatch? || step.SyncSpecial? || step.FinalSync? {
      SyncSteps(s, step);
    } else {
      WriteSteps(s, step);
    }
  }

  lemma StepMode(s: State, step: Step)
    requires Enabled(s, step)
    ensures Do(s, step).mode == s.mode
  {
  }

  lemma FirstOf(s: State, steps: seq<Step>, t: State) returns (r: State)
    requires steps != [] && Ran(s, steps, t)
    ensures Enabled(s, steps[0]) && r == Do(s, steps[0]) && Ran(r, steps[1..], t)
  {
    r := Do(s, steps[0]);
  }

  lemma StepInv(s: State, step: Step)
    requires Inv(s) && Enabled(s, step)
    ensures Inv(Do(s, step))
  {
    StepTidy(s, step);
    StepPromises(s, step);
  }

  lemma {:induction false} RunInv(s: State, steps: seq<Step>, t: State)
    requires Inv(s) && Ran(s, steps, t)
    ensures Inv(t) && t.mode == s.mode
    decreases |steps|
  {
    if steps != [] {
      var r := FirstOf(s, steps, t);
      StepMode(s, steps[0]);
      StepInv(s, steps[0]);
      RunInv(r, steps[1..], t);
    }
  }

  // ---- Main results ----

  /**
   In every reachable state, mid-flush included, the lines taken and the lines queued together are the enqueue order:
   nothing lost, duplicated or reordered, through file swaps, barriers and the shutdown drain. In mode Always every
   caller told so far has its line on disk.
   */
  lemma FlusherIsFifo(mode: Mode, steps: seq<Step>, s: State)
    requires Ran(Initial(mode), steps, s)
    ensures Taking(s) + DataOf(s.queue) == Enqueued(steps)
    ensures mode.Always? ==> Durable(s, s.acked) && s.acked <= |InFiles(s)|
  {
    RunKeeps(Initial(mode), steps, s);
    RunInv(Initial(mode), steps, s);
    assert [] + Enqueued(steps) == Enqueued(steps);
  }

  /**
   When a barrier or file swap is about to be answered, in any reachable state: everything in front of it is on disk
   exactly when the mode syncs at all and no line of the final batch is still unwritten, or nothing was in front of it.
   */
  lemma BarrierDurableIff(mode: Mode, steps: seq<Step>, s: State)
    requires Ran(Initial(mode), steps, s) && s.phase.Synced?
    ensures Durable(s, |Taking(s)|) <==> if mode.Never? then Taking(s) == [] else s.batch == []
  {
    RunInv(Initial(mode), steps, s);
  }

  /** In mode Never an answered barrier has synced nothing. */
  lemma BarrierMaySyncNothing()
    ensures exists steps, s :: Ran(Initial(Never), steps, s) && s.phase.Synced? && !Durable(s, |Taking(s)|)
  {
    var s0 := Initial(Never);
    var s1, a := OneLineWritten(Never, [123]);
    RanNext(s0, a, s1, Enqueue(Barrier));
    var s2, b := s1.(queue := [Barrier]), a + [Enqueue(Barrier)];
    assert [] + [Barrier] == [Barrier] && [Barrier][1..] == [];
    RanNext(s0, b, s2, Receive);
    var s3, c := s2.(queue := [], phase := Taken(Barrier, false)), b + [Receive];
    var s4, d := Answering(s0, c, s3);
    BarrierDurableIff(Never, d, s4);
  }

  /** During shutdown a barrier can be answered before a line in front of it is written. */
  lemma BarrierCanOvertake()
    ensures exists steps, s :: Ran(Initial(EverySec), steps, s) && s.phase.Synced? && !Durable(s, |Taking(s)|)
  {
    var s1, a := TakenBehind(EverySec, [123], Barrier);
    var s2, b := Answering(Initial(EverySec), a, s1);
    BarrierDurableIff(EverySec, b, s2);
  }

  /** A line and a message behind it are queued when the flusher begins to shut down. */
  lemma StoppedBehind(mode: Mode, line: Line, m: Msg) returns (s: State, steps: seq<Step>)
    ensures Ran(Initial(mode), steps, s)
    ensures s == Initial(mode).(queue := [Data(line), m], stop := true, phase := ShuttingDown)
  {
    var s0 := Initial(mode);
    RanOne(s0, Enqueue(Data(line)));
    var s1, a := s0.(queue := [Data(line)]), [Enqueue(Data(line))];
    RanNext(s0, a, s1, Enqueue(m));
    var s2, b := s0.(queue := [Data(line), m]), a + [Enqueue(m)];
    RanNext(s0, b, s2, Stop);
    var s3, c := s2.(stop := true), b + [Stop];
    RanNext(s0, c, s3, BeginShutdown);
    s, steps := s3.(phase := ShuttingDown), c + [BeginShutdown];
  }

  /** One line enqueued and taken. */
  lemma OneLineTaken(mode: Mode, line: Line) returns (s: State, steps: seq<Step>)
    ensures Ran(Initial(mode), steps, s) && s == Initial(mode).(batch := [line], phase := Writing(Resume))
  {
    var s0 := Initial(mode);
    RanOne(s0, Enqueue(Data(line)));
    var s1, a := s0.(queue := [Data(line)]), [Enqueue(Data(line))];
    RanNext(s0, a, s1, Receive);
    var s2, b := s0.(batch := [line], phase := Draining), a + [Receive];
    RanNext(s0, b, s2, EndDrain);
    s, steps := s2.(phase := Writing(Resume)), b + [EndDrain];
  }

  /** Then written and flushed. */
  lemma OneLineFlushed(mode: Mode, line: Line) returns (s: State, steps: seq<Step>)
    ensures Ran(Initial(mode), steps, s)
    ensures s == Initial(mode).(cur := WalFile([line], 0), owed := 1, phase := Written(Resume))
  {
    var s0 := Initial(mode);
    var s1, a := OneLineTaken(mode, line);
    RanNext(s0, a, s1, WriteLine);
    var s2, b := s1.(batch := [], buf := [line], owed := 1), a + [WriteLine];
    assert [line][1..] == [] && [] + [line] == [line];
    RanNext(s0, b, s2, FlushBuffer);
    s, steps := s2.(cur := WalFile([line], 0), buf := [], phase := Written(Resume)), b + [FlushBuffer];
  }

  /** Then synced as the mode asks and signalled. */
  lemma OneLineWritten(mode: Mode, line: Line) returns (s: State, steps: seq<Step>)
    ensures Ran(Initial(mode), steps, s) && s.phase.Waiting? && s.queue == [] && s.cur.lines == [line]
  {
    var s0 := Initial(mode);
    var s1, a := OneLineFlushed(mode, line);
    RanNext(s0, a, s1, SyncBatch);
    var s2, b := Do(s1, SyncBatch), a + [SyncBatch];
    RanNext(s0, b, s2, Signal);
    var s3, c := Do(s2, Signal), b + [Signal];
    RanNext(s0, c, s3, EndBatch);
    s, steps := s3.(phase := Waiting), c + [EndBatch];
  }

  lemma Answering(s0: State, steps: seq<Step>, s: State) returns (t: State, more: seq<Step>)
    requires Ran(s0, steps, s) && s.phase.Taken?
    ensures Ran(s0, more, t) && t.phase.Synced? && t.batch == s.batch
    ensures Taking(t) == Taking(s)
  {
    RanNext(s0, steps, s, SyncSpecial);
    t, more := Do(s, SyncSpecial), steps + [SyncSpecial];
    FlushKeeps(s, t.phase);
  }

  /** The flusher has looked at its queue for the last time. */
  predicate Closing(p: Phase) {
    match p
    case Writing(a) => a.Leave?
    case Written(a) => a.Leave?
    case Signalling(a) => a.Leave?
    case Leaving => true
    case Exited => true
    case _ => false
  }

  lemma {:induction false} ClosingTakesNothing(s: State, steps: seq<Step>, t: State)
    requires Closing(s.phase) && Ran(s, steps, t)
    ensures Taking(t) == Taking(s)
    decreases |steps|
  {
    if steps != [] {
      ClosingStep(s, steps[0]);
      ClosingTakesNothing(Do(s, steps[0]), steps[1..], t);
    }
  }

  lemma ClosingStep(s: State, step: Step)
    requires Closing(s.phase) && Enabled(s, step)
    ensures Closing(Do(s, step).phase) && Taking(Do(s, step)) == Taking(s)
  {
    match step
    case WriteLine => WriteLineKeeps(s);
    case Spill(k) => WriteThroughKeeps(s, k);
    case FlushBuffer => FlushKeeps(s, Do(s, step).phase);
    case _ =>
  }

  /**
   An exited flusher has written exactly what was enqueued before its last look at the queue, and synced its last file;
   in a syncing mode all of it is on disk.
   */
  lemma ExitLosesNothing(mode: Mode, before: seq<Step>, s: State, after: seq<Step>, t: State)
    requires Ran(Initial(mode), before, s) && Enabled(s, EndShutdown)
    requires Ran(Do(s, EndShutdown), after, t) && t.phase.Exited?
    ensures InFiles(t) == Enqueued(before) && t.cur.synced == |t.cur.lines|
    ensures mode != Never ==> Durable(t, |Enqueued(before)|)
  {
    FlusherIsFifo(mode, before, s);
    ClosingTakesNothing(Do(s, EndShutdown), after, t);
    ExitedInv(mode, before, s, after, t);
    assert Enqueued(before) + [] == Enqueued(before);
    assert Taking(t) == InFiles(t);
  }

  lemma ExitedInv(mode: Mode, before: seq<Step>, s: State, after: seq<Step>, t: State)
    requires Ran(Initial(mode), before, s) && Enabled(s, EndShutdown) && Ran(Do(s, EndShutdown), after, t)
    ensures Inv(t) && t.mode == mode
  {
    RunInv(Initial(mode), before, s);
    RanOne(s, EndShutdown);
    RunInv(s, [EndShutdown], Do(s, EndShutdown));
    RunInv(Do(s, EndShutdown), after, t);
  }

  // ---- Pace and limits ----

  /** In mode EverySec unsynced lines are known to be, except in the middle of a flush. */
  ghost predicate Prompted(s: State) {
    s.mode.EverySec? && s.cur.synced < |s.cur.lines| ==> s.pendingSync || s.phase.Writing? || s.phase.Written?
  }

  /** Queue and batch stay within their limits; only the final batch may be larger. */
  ghost predicate Limited(s: State) {
    && |s.queue| <= QUEUE_CAP
    && (s.phase.Draining? || (s.phase.Writing? && !s.phase.after.Leave?) ==> |s.batch| <= BATCH_CAP)
  }

  lemma StepPrompted(s: State, step: Step)
    requires Inv(s) && Prompted(s) && Enabled(s, step)
    ensures Prompted(Do(s, step))
  {
  }

  lemma StepLimited(s: State, step: Step)
    requires Tidy(s) && Limited(s) && Enabled(s, step)
    ensures Limited(Do(s, step))
  {
  }

  lemma {:induction false} RunPaced(s: State, steps: seq<Step>, t: State)
    requires Inv(s) && Prompted(s) && Limited(s) && Ran(s, steps, t)
    ensures Prompted(t) && Limited(t)
    decreases |steps|
  {
    if steps != [] {
      var r := FirstOf(s, steps, t);
      StepInv(s, steps[0]);
      StepPrompted(s, steps[0]);
      StepLimited(s, steps[0]);
      RunPaced(r, steps[1..], t);
    }
  }

  /** In every reachable state the queue holds at most 1024 messages and a batch of the main loop at most 512 lines. */
  lemma LimitsHold(mode: Mode, steps: seq<Step>, s: State)
    requires Ran(Initial(mode), steps, s)
    ensures |s.queue| <= 1024 && (s.phase.Draining? ==> |s.batch| <= 512)
  {
    RunPaced(Initial(mode), steps, s);
  }

  /**
   In mode EverySec, whenever the flusher waits: everything it has taken is on disk, or it knows that it is not, and the
   next tick puts it there.
   */
  lemma TickSyncsAll(steps: seq<Step>, s: State)
    requires Ran(Initial(EverySec), steps, s) && s.phase.Waiting?
    ensures Durable(s, |Taking(s)|) || Enabled(s, Tick)
    ensures Enabled(s, Tick) ==> Durable(Do(s, Tick), |Taking(Do(s, Tick))|) && Taking(Do(s, Tick)) == Taking(s)
  {
    RunInv(Initial(EverySec), steps, s);
    RunPaced(Initial(EverySec), steps, s);
  }

  // ---- Which file a line is in ----

  /** A sequence of messages cut into files: a swap starts the next one. */
  function Cut(parts: seq<seq<Line>>, m: Msg): (r: seq<seq<Line>>)
    requires parts != []
    ensures r != []
  {
    match m
    case Data(line) => parts[..|parts| - 1] + [parts[|parts| - 1] + [line]]
    case Swap => parts + [[]]
    case Barrier => parts
  }

  function CutAll(parts: seq<seq<Line>>, ms: seq<Msg>): (r: seq<seq<Line>>)
    requires parts != []
    ensures r != []
    decreases |ms|
  {
    if ms == [] then parts else CutAll(Cut(parts, ms[0]), ms[1..])
  }

  lemma {:induction false} CutMore(parts: seq<seq<Line>>, ms: seq<Msg>, m: Msg)
    requires parts != []
    ensures CutAll(parts, ms + [m]) == Cut(CutAll(parts, ms), m)
    decreases |ms|
  {
    if ms == [] {
      assert ms + [m] == [m] && [m][1..] == [];
    } else {
      assert (ms + [m])[1..] == ms[1..] + [m];
      CutMore(Cut(parts, ms[0]), ms[1..], m);
    }
  }

  /** Only the last part can still change. */
  lemma {:induction false} CutStays(parts: seq<seq<Line>>, ms: seq<Msg>, i: nat)
    requires i < |parts| - 1
    ensures |parts| <= |CutAll(parts, ms)| && CutAll(parts, ms)[i] == parts[i]
    decreases |ms|
  {
    if ms != [] {
      CutStays(Cut(parts, ms[0]), ms[1..], i);
    }
  }

  function LinesPerFile(files: seq<WalFile>): seq<seq<Line>> {
    seq(|files|, i requires 0 <= i < |files| => files[i].lines)
  }

  /** The files, the last one with what is on its way into it. */
  function Files(s: State): seq<seq<Line>> { LinesPerFile(s.closed) + [s.cur.lines + s.buf + s.batch] }

  /** The special message that has been taken and not been answered. */
  function Pending(p: Phase): seq<Msg> {
    match p
    case Writing(Handle(m)) => [m]
    case Written(Handle(m)) => [m]
    case Signalling(Handle(m)) => [m]
    case Taken(m, _) => [m]
    case Synced(m, _) => [m]
    case _ => []
  }

  /** A message pending is a special one. */
  predicate Special(s: State) { Pending(s.phase) == [] || !Pending(s.phase)[0].Data? }

  /** The files as they will be once everything taken and queued has been dealt with. */
  function Destined(s: State): seq<seq<Line>> { CutAll(Files(s), Pending(s.phase) + s.queue) }

  function Arriving(step: Step): seq<Msg> { if step.Enqueue? then [step.m] else [] }

  /** The messages enqueued in a run, in order. */
  function Arrived(steps: seq<Step>): seq<Msg> {
    if steps == [] then [] else Arriving(steps[0]) + Arrived(steps[1..])
  }

  /** A swap is answered while lines in front of it have not been written. */
  predicate Overtakes(s: State, step: Step) {
    step.Reply? && s.phase.Synced? && s.phase.m.Swap? && s.batch != []
  }

  ghost predicate NeverOvertakes(s: State, steps: seq<Step>)
    decreases |steps|
  {
    steps == [] || (Enabled(s, steps[0]) ==> !Overtakes(s, steps[0]) && NeverOvertakes(Do(s, steps[0]), steps[1..]))
  }

  lemma StepSpecial(s: State, step: Step)
    requires Special(s) && Enabled(s, step)
    ensures Special(Do(s, step))
  {
  }

  lemma EnqueueCuts(s: State, m: Msg)
    ensures Destined(s.(queue := s.queue + [m])) == Cut(Destined(s), m)
  {
    assert Pending(s.phase) + (s.queue + [m]) == Pending(s.phase) + s.queue + [m];
    CutMore(Files(s), Pending(s.phase) + s.queue, m);
  }

  lemma TakeCuts(s: State, line: Phase, special: Phase)
    requires s.queue != [] && Pending(s.phase) == [] && Pending(line) == [] && Pending(special) == [s.queue[0]]
    ensures Destined(Take(s, line, special)) == Destined(s)
  {
    if s.queue[0].Data? {
      TakeLineCuts(s, line, special);
    } else {
      assert [s.queue[0]] + s.queue[1..] == [] + s.queue;
    }
  }

  lemma TakeLineCuts(s: State, line: Phase, special: Phase)
    requires s.queue != [] && s.queue[0].Data? && Pending(s.phase) == [] && Pending(line) == []
    ensures Destined(Take(s, line, special)) == Destined(s)
  {
    var s', m := Take(s, line, special), s.queue[0];
    Regroup(s.cur.lines + s.buf, s.batch, [m.line], []);
    assert Files(s') == Cut(Files(s), m);
    assert [] + s.queue == s.queue && [] + s.queue[1..] == s.queue[1..];
  }

  /** The lines of the current file, written or not, stay the same when they move along. */
  lemma MoveAlong(c: seq<Line>, buf: seq<Line>, batch: seq<Line>, k: nat)
    requires k <= |buf|
    ensures (c + buf[..k]) + buf[k..] + batch == c + buf + batch
    ensures batch != [] ==> c + (buf + [batch[0]]) + batch[1..] == c + buf + batch
  {
    assert buf[..k] + buf[k..] == buf;
    Regroup(c, buf[..k], buf[k..], []);
    if batch != [] {
      assert [batch[0]] + batch[1..] == batch;
      Regroup(c, buf, [batch[0]], batch[1..]);
    }
  }

  lemma TransferCuts(s: State, step: Step)
    requires Enabled(s, step) && Transfers(step) && !step.Reply?
    ensures Files(Do(s, step)) == Files(s) && Pending(Do(s, step).phase) == Pending(s.phase)
  {
    if step.WriteLine? {
      MoveAlong(s.cur.lines, s.buf, s.batch, 0);
    } else if step.Spill? {
      MoveAlong(s.cur.lines, s.buf, s.batch, step.k);
    } else {
      FlushedFiles(s, Do(s, step));
    }
  }

  lemma FlushedFiles(s: State, s': State)
    requires s'.closed == s.closed && s'.cur.lines == s.cur.lines + s.buf && s'.buf == [] && s'.batch == s.batch
    ensures Files(s') == Files(s)
  {
    assert s.cur.lines + s.buf + [] == s.cur.lines + s.buf;
  }

  /** The files at an answer: a swap closes the current one, and what is in the batch goes into the next. */
  lemma ReplyFiles(s: State)
    requires Tidy(s) && Special(s) && Enabled(s, Reply)
    ensures Files(Do(s, Reply)) ==
            if s.phase.m.Swap? then LinesPerFile(s.closed) + [s.cur.lines] + [s.batch] else Files(s)
    ensures s.buf == [] && Pending(s.phase) == [s.phase.m] && Pending(Do(s, Reply).phase) == []
  {
    assert Pending(s.phase)[0] == s.phase.m;
    if s.phase.m.Swap? {
      assert LinesPerFile(s.closed + [s.cur]) == LinesPerFile(s.closed) + [s.cur.lines];
      assert [] + [] + s.batch == s.batch;
    }
  }

  lemma ReplyCuts(s: State)
    requires Tidy(s) && Special(s) && Enabled(s, Reply) && !Overtakes(s, Reply)
    ensures Destined(Do(s, Reply)) == Destined(s)
  {
    ReplyFiles(s);
    var m := s.phase.m;
    assert !m.Data? by {
      assert Pending(s.phase)[0] == m;
    }
    assert [m] + s.queue != [] && ([m] + s.queue)[1..] == s.queue && [] + s.queue == s.queue;
    assert Files(Do(s, Reply)) == Cut(Files(s), m) by {
      assert s.cur.lines + [] + [] == s.cur.lines;
    }
  }

  lemma StepCuts(s: State, step: Step)
    requires Tidy(s) && Special(s) && Enabled(s, step) && !Overtakes(s, step)
    ensures Destined(Do(s, step)) == CutAll(Destined(s), Arriving(step))
  {
    match step
    case Enqueue(m) =>
      EnqueueCuts(s, m);
      assert [m][1..] == [];
    case Receive => TakeCuts(s, Draining, Taken(s.queue[0], false));
    case Drain => TakeCuts(s, Draining, Writing(Handle(s.queue[0])));
    case TakeLast => TakeCuts(s, ShuttingDown, Taken(s.queue[0], true));
    case Reply => ReplyCuts(s);
    case _ =>
      if Transfers(step) {
        TransferCuts(s, step);
      } else {
        OthersMoveNoLine(s, step);
        OthersKeepPending(s, step);
      }
  }

  lemma OthersKeepPending(s: State, step: Step)
    requires Enabled(s, step) && !step.Enqueue? && !Takes(step) && !Transfers(step)
    ensures Pending(Do(s, step).phase) == Pending(s.phase)
  {
  }

  /** A closed file does not hold what it should. */
  ghost predicate Misplaced(s: State, parts: seq<seq<Line>>) {
    exists i :: 0 <= i < |s.closed| && i < |parts| - 1 && s.closed[i].lines != parts[i]
  }

  lemma MisplacedShows(s: State, parts: seq<seq<Line>>)
    requires Misplaced(s, parts)
    ensures Destined(s) != parts
  {
    var i :| 0 <= i < |s.closed| && i < |parts| - 1 && s.closed[i].lines != parts[i];
    CutStays(Files(s), Pending(s.phase) + s.queue, i);
  }

  lemma ClosedStays(s: State, step: Step)
    requires Enabled(s, step)
    ensures s.closed <= Do(s, step).closed
  {
  }

  lemma MisplacedStays(s: State, step: Step, parts: seq<seq<Line>>)
    requires Misplaced(s, parts) && parts != [] && Enabled(s, step)
    ensures Misplaced(Do(s, step), CutAll(parts, Arriving(step)))
  {
    var s', parts' := Do(s, step), CutAll(parts, Arriving(step));
    var i :| 0 <= i < |s.closed| && i < |parts| - 1 && s.closed[i].lines != parts[i];
    CutStays(parts, Arriving(step), i);
    ClosedStays(s, step);
    assert s'.closed[i] == s.closed[i];
    assert i < |s'.closed| && i < |parts'| - 1 && s'.closed[i].lines != parts'[i];
  }

  lemma OvertakingMisplaces(s: State)
    requires Tidy(s) && Special(s) && Enabled(s, Reply) && Overtakes(s, Reply)
    ensures Misplaced(Do(s, Reply), Destined(s))
  {
    var s', i := Do(s, Reply), |s.closed|;
    ReplyFiles(s);
    var parts := Cut(Files(s), Swap);
    assert ([Swap] + s.queue)[1..] == s.queue && Pending(s.phase) + s.queue == [Swap] + s.queue;
    CutStays(parts, s.queue, i);
    assert parts[i] == s.cur.lines + [] + s.batch;
    assert s'.closed[i].lines == s.cur.lines;
    assert |parts[i]| != |s.cur.lines|;
    assert i < |s'.closed| && i < |Destined(s)| - 1 && s'.closed[i].lines != Destined(s)[i];
  }

  lemma {:induction false} ArrivedOne(parts: seq<seq<Line>>, a: seq<Msg>, b: seq<Msg>)
    requires parts != []
    ensures CutAll(parts, a + b) == CutAll(CutAll(parts, a), b)
    decreases |a|
  {
    if a == [] {
      assert a + b == b;
    } else {
      assert (a + b)[1..] == a[1..] + b;
      ArrivedOne(Cut(parts, a[0]), a[1..], b);
    }
  }

  lemma {:induction false} RunCuts(s: State, steps: seq<Step>, t: State, parts: seq<seq<Line>>)
    requires Inv(s) && Special(s) && Ran(s, steps, t) && parts != []
    ensures Destined(s) == parts && NeverOvertakes(s, steps) ==> Destined(t) == CutAll(parts, Arrived(steps))
    ensures Misplaced(s, parts) || (Destined(s) == parts && !NeverOvertakes(s, steps)) ==>
              Misplaced(t, CutAll(parts, Arrived(steps)))
    decreases |steps|
  {
    if steps != [] {
      var step, rest := steps[0], steps[1..];
      var r := FirstOf(s, steps, t);
      StepInv(s, step);
      StepSpecial(s, step);
      ArrivedOne(parts, Arriving(step), Arrived(rest));
      FirstCut(s, step, parts);
      RunCuts(r, rest, t, CutAll(parts, Arriving(step)));
    }
  }

  lemma FirstCut(s: State, step: Step, parts: seq<seq<Line>>)
    requires Tidy(s) && Special(s) && Enabled(s, step) && parts != []
    ensures Destined(s) == parts && !Overtakes(s, step) ==> Destined(Do(s, step)) == CutAll(parts, Arriving(step))
    ensures Misplaced(s, parts) || (Destined(s) == parts && Overtakes(s, step)) ==>
              Misplaced(Do(s, step), CutAll(parts, Arriving(step)))
  {
    if !Overtakes(s, step) {
      StepCuts(s, step);
    } else if Destined(s) == parts {
      OvertakingMisplaces(s);
    }
    if Misplaced(s, parts) {
      MisplacedStays(s, step, parts);
    }
  }

  lemma InitialFiles(mode: Mode)
    ensures Destined(Initial(mode)) == [[]] && Reached(Initial(mode)) == [[]]
  {
    var s, none: seq<Line> := Initial(mode), [];
    assert LinesPerFile(s.closed) == [] && none + none + none == none && none + none == none;
    assert Files(s) == [none] && Pending(s.phase) + s.queue == [];
  }

  /**
   In every run: each file holds, or is going to hold, exactly the lines enqueued between two swaps, if and only if no
   swap is answered over lines not yet written.
   */
  lemma FilesFollowSwapsIff(mode: Mode, steps: seq<Step>, s: State)
    requires Ran(Initial(mode), steps, s)
    ensures Destined(s) == CutAll([[]], Arrived(steps)) <==> NeverOvertakes(Initial(mode), steps)
  {
    var s0 := Initial(mode);
    InitialFiles(mode);
    RunCuts(s0, steps, s, [[]]);
    if !NeverOvertakes(s0, steps) {
      MisplacedShows(s, CutAll([[]], Arrived(steps)));
    }
  }

  lemma {:induction false} OnlyShutdownOvertakes(s: State, steps: seq<Step>, t: State)
    requires Inv(s) && Ran(s, steps, t) && !Down(s.phase) && forall i :: 0 <= i < |steps| ==> !steps[i].BeginShutdown?
    ensures NeverOvertakes(s, steps)
    decreases |steps|
  {
    if steps != [] {
      var r := FirstOf(s, steps, t);
      StepInv(s, steps[0]);
      StaysUp(s, steps[0]);
      OnlyShutdownOvertakes(r, steps[1..], t);
    }
  }

  lemma StaysUp(s: State, step: Step)
    requires Tidy(s) && !Down(s.phase) && Enabled(s, step) && !step.BeginShutdown?
    ensures !Down(Do(s, step).phase) && !Overtakes(s, step)
  {
  }

  /** The flusher is in its shutdown branch. */
  predicate Down(p: Phase) {
    match p
    case ShuttingDown => true
    case Taken(_, down) => down
    case Synced(_, down) => down
    case _ => Closing(p)
  }

  /**
   Before shutdown a swap is exact: whenever the flusher waits with an empty queue, every closed file and the current
   one hold the lines enqueued between two swaps, no more and no fewer.
   */
  lemma SwapsCutExactly(mode: Mode, steps: seq<Step>, s: State)
    requires Ran(Initial(mode), steps, s) && forall i :: 0 <= i < |steps| ==> !steps[i].BeginShutdown?
    requires s.phase.Waiting? && s.queue == []
    ensures LinesPerFile(s.closed) + [s.cur.lines] == CutAll([[]], Arrived(steps))
  {
    OnlyShutdownOvertakes(Initial(mode), steps, s);
    FilesFollowSwapsIff(mode, steps, s);
    RunInv(Initial(mode), steps, s);
    assert s.cur.lines + [] + [] == s.cur.lines && Pending(s.phase) + s.queue == [];
  }

  /** During shutdown a swap can be answered before a line in front of it is written, which then goes to the new file. */
  lemma SwapCanOvertake() returns (steps: seq<Step>, s: State)
    ensures Ran(Initial(EverySec), steps, s) && Destined(s) != CutAll([[]], Arrived(steps))
  {
    var s1, a := TakenBehind(EverySec, [123], Swap);
    steps, s := SyncedBehind(EverySec, a, s1);
  }

  lemma SyncedBehind(mode: Mode, before: seq<Step>, s1: State) returns (steps: seq<Step>, s: State)
    requires Ran(Initial(mode), before, s1) && s1.phase == Taken(Swap, true) && s1.batch != []
    ensures Ran(Initial(mode), steps, s) && Destined(s) != CutAll([[]], Arrived(steps))
  {
    RanNext(Initial(mode), before, s1, SyncSpecial);
    var s2 := Do(s1, SyncSpecial);
    OvertakenRun(mode, before + [SyncSpecial], s2);
    steps, s := before + [SyncSpecial] + [Reply], Do(s2, Reply);
  }

  /** The message has been taken by the shutdown drain, with the line in front of it in the batch. */
  lemma TakenBehind(mode: Mode, line: Line, m: Msg) returns (s: State, steps: seq<Step>)
    requires !m.Data?
    ensures Ran(Initial(mode), steps, s)
    ensures s == Initial(mode).(batch := [line], stop := true, phase := Taken(m, true))
  {
    var s0 := Initial(mode);
    var s1, a := StoppedBehind(mode, line, m);
    RanNext(s0, a, s1, TakeLast);
    assert [Data(line), m][1..] == [m] && [] + [line] == [line] && [m][1..] == [];
    var s2 := s1.(queue := [m], batch := [line]);
    assert Do(s1, TakeLast) == s2;
    RanNext(s0, a + [TakeLast], s2, TakeLast);
    s, steps := s2.(queue := [], phase := Taken(m, true)), a + [TakeLast] + [TakeLast];
  }

  /** Answering a swap over an unwritten batch, after whatever run, misplaces a line. */
  lemma OvertakenRun(mode: Mode, steps: seq<Step>, s: State)
    requires Ran(Initial(mode), steps, s) && Enabled(s, Reply) && Overtakes(s, Reply)
    ensures Ran(Initial(mode), steps + [Reply], Do(s, Reply))
    ensures Destined(Do(s, Reply)) != CutAll([[]], Arrived(steps + [Reply]))
  {
    var s0 := Initial(mode);
    RanNext(s0, steps, s, Reply);
    FilesFollowSwapsIff(mode, steps + [Reply], Do(s, Reply));
    OvertakesAtEnd(s0, steps, s);
  }

  lemma {:induction false} OvertakesAtEnd(s: State, steps: seq<Step>, t: State)
    requires Ran(s, steps, t) && Enabled(t, Reply) && Overtakes(t, Reply)
    ensures !NeverOvertakes(s, steps + [Reply])
    decreases |steps|
  {
    if steps == [] {
      assert steps + [Reply] == [Reply];
    } else {
      var r := FirstOf(s, steps, t);
      assert (steps + [Reply])[1..] == steps[1..] + [Reply];
      OvertakesAtEnd(r, steps[1..], t);
    }
  }

  /** The lines written in a run, cut where a swap is answered. */
  function WrittenParts(s: State, parts: seq<seq<Line>>, steps: seq<Step>): seq<seq<Line>>
    requires parts != []
    decreases |steps|
  {
    if steps == [] || !Enabled(s, steps[0]) then parts
    else
      var parts' := if steps[0].WriteLine? then Cut(parts, Data(s.batch[0]))
                    else if steps[0].Reply? then Cut(parts, s.phase.m) else parts;
      WrittenParts(Do(s, steps[0]), parts', steps[1..])
  }

  /** The files, the last one with what is in the buffered writer. */
  function Reached(s: State): seq<seq<Line>> { LinesPerFile(s.closed) + [s.cur.lines + s.buf] }

  lemma StepReaches(s: State, step: Step)
    requires Tidy(s) && Special(s) && Enabled(s, step)
    ensures Reached(Do(s, step)) ==
            if step.WriteLine? then Cut(Reached(s), Data(s.batch[0]))
            else if step.Reply? then Cut(Reached(s), s.phase.m) else Reached(s)
  {
    if step.WriteLine? {
      assert s.cur.lines + (s.buf + [s.batch[0]]) == s.cur.lines + s.buf + [s.batch[0]];
    } else if step.Reply? {
      ReplyReaches(s);
    } else if step.Spill? {
      SpillReaches(s.cur.lines, s.buf, step.k);
    } else if step.FlushBuffer? || step.SyncSpecial? {
      assert s.cur.lines + s.buf + [] == s.cur.lines + s.buf;
    } else if Takes(step) || step.Enqueue? {
      assert Reached(Do(s, step)) == Reached(s);
    } else {
      OthersMoveNoLine(s, step);
    }
  }

  lemma SpillReaches(c: seq<Line>, buf: seq<Line>, k: nat)
    requires k <= |buf|
    ensures c + buf[..k] + buf[k..] == c + buf
  {
    assert buf[..k] + buf[k..] == buf;
    Regroup(c, buf[..k], buf[k..], []);
  }

  lemma ReplyReaches(s: State)
    requires Tidy(s) && Special(s) && Enabled(s, Reply)
    ensures Reached(Do(s, Reply)) == Cut(Reached(s), s.phase.m)
  {
    assert !Pending(s.phase)[0].Data? && s.buf == [];
    var none: seq<Line> := [];
    assert s.cur.lines + none == s.cur.lines && none + none == none;
    assert LinesPerFile(s.closed + [s.cur]) == LinesPerFile(s.closed) + [s.cur.lines];
  }

  lemma {:induction false} RunReaches(s: State, steps: seq<Step>, t: State)
    requires Inv(s) && Special(s) && Ran(s, steps, t)
    ensures Reached(t) == WrittenParts(s, Reached(s), steps)
    decreases |steps|
  {
    if steps != [] {
      var r := FirstOf(s, steps, t);
      StepInv(s, steps[0]);
      StepSpecial(s, steps[0]);
      StepReaches(s, steps[0]);
      RunReaches(r, steps[1..], t);
    }
  }

  /** In every run, shutdown included, each file holds the lines written between two answered swaps. */
  lemma FilesHoldWritesBetweenSwaps(mode: Mode, steps: seq<Step>, s: State)
    requires Ran(Initial(mode), steps, s)
    ensures LinesPerFile(s.closed) + [s.cur.lines + s.buf] == WrittenParts(Initial(mode), [[]], steps)
  {
    InitialFiles(mode);
    RunReaches(Initial(mode), steps, s);
  }

  // ---- The goroutine ----

  class Flusher {
    const mode: Mode
    var queue: seq<Msg>
    var batch: seq<Line>
    var buf: seq<Line>
    var closed: seq<WalFile>
    var cur: WalFile
    var pendingSync: bool
    var acked: nat
    var stop: bool

    /** The state at a program point where `unwritten` is left of the batch and `owed` callers are to be told. */
    ghost function At(phase: Phase, unwritten: seq<Line>, owed: nat): State
      reads this
    {
      State(mode, queue, unwritten, buf, closed, cur, pendingSync, owed, acked, stop, phase)
    }

    constructor (mode: Mode)
      ensures At(Waiting, batch, 0) == Initial(mode)
    {
      this.mode := mode;
      queue, batch, buf, closed, cur := [], [], [], [], WalFile([], 0);
      pendingSync, acked, stop := false, 0, false;
    }

    /** Writes the batch line by line into the buffered writer. */
    method WriteBatch(ghost after: After) returns (ghost steps: seq<Step>)
      modifies this`buf
      ensures Ran(old(At(Writing(after), batch, 0)), steps, At(Writing(after), [], |batch|))
    {
      ghost var s0 := At(Writing(after), batch, 0);
      steps := [];
      assert batch[0..] == batch;
      for i := 0 to |batch|
        invariant Ran(s0, steps, At(Writing(after), batch[i..], i))
      {
        RanNext(s0, steps, At(Writing(after), batch[i..], i), WriteLine);
        steps := steps + [WriteLine];
        buf := buf + [batch[i]];
        assert batch[i..][0] == batch[i] && batch[i..][1..] == batch[i + 1..];
      }
      assert batch[|batch|..] == [];
    }

    /** Flushes the buffered writer and syncs as the mode asks. */
    method FlushAndSync(ghost after: After, ghost owed: nat) returns (ghost steps: seq<Step>)
      modifies this`cur, this`buf, this`pendingSync
      ensures Ran(old(At(Writing(after), [], owed)), steps, At(Signalling(after), [], owed))
    {
      ghost var s0 := At(Writing(after), [], owed);
      RanOne(s0, FlushBuffer);
      cur := cur.(lines := cur.lines + buf);
      buf := [];
      RanNext(s0, [FlushBuffer], At(Written(after), [], owed), SyncBatch);
      steps := [FlushBuffer] + [SyncBatch];
      match mode {
        case Always =>
          cur := cur.(synced := |cur.lines|);
          pendingSync := false;
        case EverySec => pendingSync := true;
        case Never =>
      }
    }

    /** Tells the waiting callers, one by one. */
    method SignalBatch(ghost after: After) returns (ghost steps: seq<Step>)
      modifies this`acked
      ensures Ran(old(At(Signalling(after), [], |batch|)), steps, At(Signalling(after), [], 0))
    {
      ghost var s0 := At(Signalling(after), [], |batch|);
      steps := [];
      for i := 0 to |batch|
        invariant Ran(s0, steps, At(Signalling(after), [], |batch| - i))
      {
        RanNext(s0, steps, At(Signalling(after), [], |batch| - i), Signal);
        steps := steps + [Signal];
        if mode.Always? {
          acked := acked + 1;
        }
      }
    }

    /** The point the flush of a batch leads to. */
    static ghost function Next(after: After): Phase {
      match after case Resume => Waiting case Handle(m) => Taken(m, false) case Leave => Leaving
    }

    /** Write, flush, sync, signal, in this order. */
    method FlushBatch(ghost after: After) returns (ghost steps: seq<Step>)
      modifies this`batch, this`cur, this`buf, this`pendingSync, this`acked
      ensures Ran(old(At(Writing(after), batch, 0)), steps, At(Next(after), [], 0)) && batch == []
    {
      ghost var s0 := At(Writing(after), batch, 0);
      ghost var a := WriteAndSync(after);
      ghost var s1 := At(Signalling(after), [], |batch|);
      ghost var b := SignalBatch(after);
      ghost var s2 := At(Signalling(after), [], 0);
      RanMore(s0, a, s1, b, s2);
      RanNext(s0, a + b, s2, EndBatch);
      steps := a + b + [EndBatch];
      batch := [];
    }

    method WriteAndSync(ghost after: After) returns (ghost steps: seq<Step>)
      modifies this`cur, this`buf, this`pendingSync
      ensures Ran(old(At(Writing(after), batch, 0)), steps, At(Signalling(after), [], |batch|))
    {
      ghost var s0 := At(Writing(after), batch, 0);
      ghost var a := WriteBatch(after);
      ghost var s1 := At(Writing(after), [], |batch|);
      ghost var b := FlushAndSync(after, |batch|);
      RanMore(s0, a, s1, b, At(Signalling(after), [], |batch|));
      steps := a + b;
    }

    /** A barrier or file swap: flush, sync as the mode asks, answer, then switch files. */
    method AnswerSpecial(m: Msg, ghost down: bool) returns (ghost steps: seq<Step>)
      modifies this`closed, this`cur, this`buf, this`pendingSync
      ensures Ran(old(At(Taken(m, down), batch, 0)), steps, At(if down then ShuttingDown else Waiting, batch, 0))
    {
      ghost var s0 := At(Taken(m, down), batch, 0);
      FlushAndSecure(m, down);
      ghost var s1 := At(Synced(m, down), batch, 0);
      RanOne(s0, SyncSpecial);
      RanNext(s0, [SyncSpecial], s1, Reply);
      steps := [SyncSpecial] + [Reply];
      Answer(m, down);
    }

    method FlushAndSecure(m: Msg, ghost down: bool)
      modifies this`cur, this`buf, this`pendingSync
      ensures At(Synced(m, down), batch, 0) == Do(old(At(Taken(m, down), batch, 0)), SyncSpecial)
    {
      cur := cur.(lines := cur.lines + buf);
      buf := [];
      if mode != Never {
        cur := cur.(synced := |cur.lines|);
        pendingSync := false;
      }
    }

    method Answer(m: Msg, ghost down: bool)
      modifies this`closed, this`cur
      ensures At(if down then ShuttingDown else Waiting, batch, 0) == Do(old(At(Synced(m, down), batch, 0)), Reply)
    {
      if m.Swap? {
        closed := closed + [cur];
        cur := WalFile([], 0);
      }
    }

    /** One more message: a line joins the batch; a special one first flushes the batch, is answered and ends the turn. */
    method DrainNext() returns (special: bool, ghost steps: seq<Step>)
      requires queue != [] && |batch| < BATCH_CAP
      modifies this
      ensures Ran(old(At(Draining, batch, 0)), steps, At(if special then Waiting else Draining, batch, 0))
      ensures special ==> batch == []
      ensures |queue| < |old(queue)|
    {
      ghost var s0 := At(Draining, batch, 0);
      RanOne(s0, Drain);
      steps := [Drain];
      var m := queue[0];
      queue := queue[1..];
      special := !m.Data?;
      if special {
        steps := FlushAndAnswer(m, s0, steps);
      } else {
        batch := batch + [m.line];
      }
    }

    method FlushAndAnswer(m: Msg, ghost s0: State, ghost before: seq<Step>) returns (ghost steps: seq<Step>)
      requires Ran(s0, before, At(Writing(Handle(m)), batch, 0))
      modifies this
      ensures Ran(s0, steps, At(Waiting, batch, 0)) && batch == [] && queue == old(queue)
    {
      ghost var s1 := At(Writing(Handle(m)), batch, 0);
      ghost var a := FlushBatch(Handle(m));
      ghost var s2 := At(Taken(m, false), [], 0);
      RanMore(s0, before, s1, a, s2);
      ghost var b := AnswerSpecial(m, false);
      RanMore(s0, before + a, s2, b, At(Waiting, batch, 0));
      steps := before + a + b;
    }

    /** The first message of a turn: a special one is answered at once, a line opens a batch. */
    method ReceiveNext() returns (special: bool, ghost steps: seq<Step>)
      requires queue != [] && batch == []
      modifies this
      ensures Ran(old(At(Waiting, batch, 0)), steps, At(if special then Waiting else Draining, batch, 0))
      ensures special ==> batch == []
      ensures |queue| < |old(queue)|
    {
      ghost var s0 := At(Waiting, batch, 0);
      RanOne(s0, Receive);
      steps := [Receive];
      var m := queue[0];
      queue := queue[1..];
      special := !m.Data?;
      if special {
        ghost var s1 := At(Taken(m, false), batch, 0);
        ghost var a := AnswerSpecial(m, false);
        RanMore(s0, steps, s1, a, At(Waiting, batch, 0));
        steps := steps + a;
      } else {
        batch := [m.line];
      }
    }

    /** One turn of the main loop on a non-empty queue: receive, drain without blocking, flush. */
    method Turn() returns (ghost steps: seq<Step>)
      requires queue != [] && batch == []
      modifies this
      ensures Ran(old(At(Waiting, batch, 0)), steps, At(Waiting, batch, 0)) && batch == []
      ensures |queue| < |old(queue)|
    {
      ghost var s0 := At(Waiting, batch, 0);
      var special;
      special, steps := ReceiveNext();
      while !special && |batch| < BATCH_CAP && queue != []
        invariant Ran(s0, steps, At(if special then Waiting else Draining, batch, 0))
        invariant special ==> batch == []
        invariant |queue| < |old(queue)|
        decreases |queue|
      {
        ghost var s1, more := At(Draining, batch, 0), [];
        special, more := DrainNext();
        RanMore(s0, steps, s1, more, At(if special then Waiting else Draining, batch, 0));
        steps := steps + more;
      }
      if !special {
        steps := FlushLast(s0, steps);
      }
    }

    method FlushLast(ghost s0: State, ghost before: seq<Step>) returns (ghost steps: seq<Step>)
      requires Ran(s0, before, At(Draining, batch, 0)) && (|batch| >= BATCH_CAP || queue == [])
      modifies this
      ensures Ran(s0, steps, At(Waiting, batch, 0)) && batch == [] && queue == old(queue)
    {
      ghost var s1 := At(Draining, batch, 0);
      RanNext(s0, before, s1, EndDrain);
      ghost var s2 := At(Writing(Resume), batch, 0);
      ghost var a := FlushBatch(Resume);
      RanMore(s0, before + [EndDrain], s2, a, At(Waiting, [], 0));
      steps := before + [EndDrain] + a;
    }

    method ShutdownNext() returns (ghost steps: seq<Step>)
      requires queue != []
      modifies this
      ensures Ran(old(At(ShuttingDown, batch, 0)), steps, At(ShuttingDown, batch, 0))
      ensures |queue| < |old(queue)|
    {
      ghost var s0 := At(ShuttingDown, batch, 0);
      RanOne(s0, TakeLast);
      steps := [TakeLast];
      var m := queue[0];
      queue := queue[1..];
      if m.Data? {
        batch := batch + [m.line];
      } else {
        ghost var s1 := At(Taken(m, true), batch, 0);
        ghost var a := AnswerSpecial(m, true);
        RanMore(s0, steps, s1, a, At(ShuttingDown, batch, 0));
        steps := steps + a;
      }
    }

    /** The drain at shutdown: everything queued is taken, specials answered on the way, the rest flushed and synced. */
    method DrainAndExit() returns (ghost steps: seq<Step>)
      requires stop && batch == []
      modifies this
      ensures Ran(old(At(Waiting, batch, 0)), steps, At(Exited, batch, 0))
      ensures queue == [] && batch == []
    {
      ghost var s0 := At(Waiting, batch, 0);
      RanOne(s0, BeginShutdown);
      steps := [BeginShutdown];
      while queue != []
        invariant Ran(s0, steps, At(ShuttingDown, batch, 0))
        decreases |queue|
      {
        ghost var s1 := At(ShuttingDown, batch, 0);
        ghost var more := ShutdownNext();
        RanMore(s0, steps, s1, more, At(ShuttingDown, batch, 0));
        steps := steps + more;
      }
      steps := FlushAndLeave(s0, steps);
    }

    method FlushAndLeave(ghost s0: State, ghost before: seq<Step>) returns (ghost steps: seq<Step>)
      requires Ran(s0, before, At(ShuttingDown, batch, 0)) && queue == []
      modifies this
      ensures Ran(s0, steps, At(Exited, batch, 0)) && batch == [] && queue == []
    {
      ghost var s1 := At(ShuttingDown, batch, 0);
      RanNext(s0, before, s1, EndShutdown);
      ghost var s2 := At(Writing(Leave), batch, 0);
      ghost var a := FlushBatch(Leave);
      ghost var s3 := At(Leaving, [], 0);
      RanMore(s0, before + [EndShutdown], s2, a, s3);
      RanNext(s0, before + [EndShutdown] + a, s3, FinalSync);
      steps := before + [EndShutdown] + a + [FinalSync];
      cur := cur.(synced := |cur.lines|);
    }
  }
}
