/**
 Nested transactions as values: a stack of frames over the committed view. The main result reads a run of BEGIN, COMMIT,
 ROLLBACK and writes as the plain list of writes that survive it.
 */
module Transactions {
  import opened Bytes
  import opened Expiry

  /** A committed key: its value and expiry stamp, 0 for none. */
  datatype Item = Item(value: Blob, expiresAt: int)

  type View = map<Key, Item>

  datatype Write =
    | Put(key: Key, value: Blob, expiry: Option<int>)   // no expiry: plain Set
    | Del(key: Key)

  /** In-flight changes of one savepoint. An expiry of `None` is the zero time. */
  datatype Frame = Frame(store: map<Key, Blob>, deleted: set<Key>, expiry: map<Key, Option<int>>)

  const EMPTY_FRAME := Frame(map[], {}, map[])

  function Stamp(expiry: Option<int>): int { if expiry.Some? then expiry.value else 0 }

  /**
   What every frame of a running session satisfies. An expiry may outlive its stored value only while the key is marked
   deleted; otherwise merging it would overwrite the expiry of an outer frame's value.
   */
  ghost predicate WellFormed(f: Frame) {
    f.store.Keys !! f.deleted && f.store.Keys <= f.expiry.Keys <= f.store.Keys + f.deleted
  }

  /** Every write is a set that repeats what the view holds. */
  ghost predicate Quotes(out: seq<Write>, view: View) {
    forall i :: 0 <= i < |out| ==>
      out[i].Put? && out[i].key in view && out[i] == Put(out[i].key, view[out[i].key].value, Some(view[out[i].key].expiresAt))
  }

  // ---- The operations ----

  function ApplyWrite(v: View, w: Write): View {
    match w
    case Put(k, value, expiry) => v[k := Item(value, Stamp(expiry))]
    case Del(k) => v - {k}
  }

  function Record(f: Frame, w: Write): Frame {
    match w
    case Put(k, value, expiry) => Frame(f.store[k := value], f.deleted - {k}, f.expiry[k := expiry])
    case Del(k) => Frame(f.store - {k}, f.deleted + {k}, f.expiry - {k})
  }

  /** Committing into the parent: stores first, then deletes, then expiries; a stale parent expiry may stay behind. */
  function Merge(parent: Frame, child: Frame): Frame {
    Frame((parent.store + child.store) - child.deleted,
          (parent.deleted - child.store.Keys) + child.deleted,
          parent.expiry + child.expiry)
  }

  function FrameItem(f: Frame, k: Key): Item
    requires k in f.store
  {
    Item(f.store[k], if k in f.expiry then Stamp(f.expiry[k]) else 0)
  }

  /** Committing into the main store. */
  function ApplyFrame(v: View, f: Frame): View {
    (v + map k | k in f.store :: FrameItem(f, k)) - f.deleted
  }

  datatype Session = Session(frames: seq<Frame>, view: View)   // frames[0] is the innermost

  datatype Op =
    | Begin
    | Commit
    | Rollback
    | DoWrite(w: Write)
    | DoDirect(w: Write)   // a blob write, which ignores open transactions

  function Step(s: Session, op: Op): Session {
    match op
    case Begin => s.(frames := [EMPTY_FRAME] + s.frames)
    case Commit =>
      if s.frames == [] then s
      else if |s.frames| == 1 then Session([], ApplyFrame(s.view, s.frames[0]))
      else s.(frames := [Merge(s.frames[1], s.frames[0])] + s.frames[2..])
    case Rollback =>
      if s.frames == [] then s else s.(frames := s.frames[1..])
    case DoWrite(w) =>
      if s.frames == [] then s.(view := ApplyWrite(s.view, w))
      else s.(frames := [Record(s.frames[0], w)] + s.frames[1..])
    case DoDirect(w) => s.(view := ApplyWrite(s.view, w))
  }

  function Exec(s: Session, ops: seq<Op>): Session
    decreases |ops|
  {
    if ops == [] then s else Exec(Step(s, ops[0]), ops[1..])
  }

  function RunWrites(v: View, ws: seq<Write>): View {
    if ws == [] then v else ApplyWrite(RunWrites(v, ws[..|ws| - 1]), ws[|ws| - 1])
  }

  // ---- The reference: keep a list of writes per open transaction ----

  /** The writes made for good, and those of each open transaction, innermost first. */
  datatype Pending = Pending(done: seq<Write>, open: seq<seq<Write>>)

  function EraseStep(p: Pending, op: Op): Pending {
    match op
    case Begin => p.(open := [[]] + p.open)
    case Commit =>
      if p.open == [] then p
      else if |p.open| == 1 then Pending(p.done + p.open[0], [])
      else p.(open := [p.open[1] + p.open[0]] + p.open[2..])
    case Rollback =>
      if p.open == [] then p else p.(open := p.open[1..])
    case DoWrite(w) =>
      if p.open == [] then p.(done := p.done + [w])
      else p.(open := [p.open[0] + [w]] + p.open[1..])
    case DoDirect(w) => p.(done := p.done + [w])
  }

  function Erase(p: Pending, ops: seq<Op>): Pending
    decreases |ops|
  {
    if ops == [] then p else Erase(EraseStep(p, ops[0]), ops[1..])
  }

  // ---- Frames mean lists of writes ----

  datatype Effect = Keep | Gone | Becomes(item: Item)

  function WriteEffect(ws: seq<Write>, k: Key): Effect {
    if ws == [] then Keep
    else
      var w := ws[|ws| - 1];
      if w.key != k then WriteEffect(ws[..|ws| - 1], k)
      else if w.Del? then Gone
      else Becomes(Item(w.value, Stamp(w.expiry)))
  }

  function FrameEffect(f: Frame, k: Key): Effect {
    if k in f.deleted then Gone
    else if k in f.store then Becomes(FrameItem(f, k))
    else Keep
  }

  ghost predicate Means(f: Frame, ws: seq<Write>) {
    WellFormed(f) && forall k :: FrameEffect(f, k) == WriteEffect(ws, k)
  }

  function Combine(v: View, k: Key, e: Effect): Option<Item> {
    match e
    case Keep => if k in v then Some(v[k]) else None
    case Gone => None
    case Becomes(item) => Some(item)
  }

  function Lookup(v: View, k: Key): Option<Item> { if k in v then Some(v[k]) else None }

  lemma {:induction false} RunWritesAt(v: View, ws: seq<Write>, k: Key)
    ensures Lookup(RunWrites(v, ws), k) == Combine(v, k, WriteEffect(ws, k))
  {
    if ws != [] {
      RunWritesAt(v, ws[..|ws| - 1], k);
    }
  }

  lemma ApplyFrameRuns(v: View, f: Frame, ws: seq<Write>)
    requires Means(f, ws)
    ensures ApplyFrame(v, f) == RunWrites(v, ws)
  {
    forall k ensures Lookup(ApplyFrame(v, f), k) == Lookup(RunWrites(v, ws), k) {
      RunWritesAt(v, ws, k);
      assert FrameEffect(f, k) == WriteEffect(ws, k);
    }
    SameLookups(ApplyFrame(v, f), RunWrites(v, ws));
  }

  lemma SameLookups(a: View, b: View)
    requires forall k :: Lookup(a, k) == Lookup(b, k)
    ensures a == b
  {
    forall k ensures (k in a <==> k in b) && (k in a ==> a[k] == b[k]) {
      assert Lookup(a, k) == Lookup(b, k);
    }
  }

  lemma {:induction false} RunWritesConcat(v: View, a: seq<Write>, b: seq<Write>)
    ensures RunWrites(v, a + b) == RunWrites(RunWrites(v, a), b)
  {
    if b == [] {
      assert a + b == a;
    } else {
      RunWritesConcat(v, a, b[..|b| - 1]);
      assert (a + b)[..|a + b| - 1] == a + b[..|b| - 1];
    }
  }

  lemma {:induction false} WriteEffectConcat(a: seq<Write>, b: seq<Write>, k: Key)
    ensures WriteEffect(a + b, k) == if WriteEffect(b, k).Keep? then WriteEffect(a, k) else WriteEffect(b, k)
  {
    if b == [] {
      assert a + b == a;
    } else {
      WriteEffectConcat(a, b[..|b| - 1], k);
      assert (a + b)[..|a + b| - 1] == a + b[..|b| - 1];
    }
  }

  /** The writes quote the given keys of the view and no others. */
  ghost predicate QuotesKeys(out: seq<Write>, view: View, keys: set<Key>) {
    && keys <= view.Keys && Quotes(out, view)
    && forall k :: WriteEffect(out, k) == if k in keys then Becomes(view[k]) else Keep
  }

  lemma QuoteMore(out: seq<Write>, view: View, keys: set<Key>, k: Key)
    requires QuotesKeys(out, view, keys) && k in view
    ensures QuotesKeys(out + [Put(k, view[k].value, Some(view[k].expiresAt))], view, keys + {k})
  {
    var w := Put(k, view[k].value, Some(view[k].expiresAt));
    assert (out + [w])[..|out|] == out;
  }

  lemma RecordMeans(f: Frame, ws: seq<Write>, w: Write)
    requires Means(f, ws)
    ensures Means(Record(f, w), ws + [w])
  {
    assert (ws + [w])[..|ws|] == ws;
    forall k ensures FrameEffect(Record(f, w), k) == WriteEffect(ws + [w], k) {
      assert FrameEffect(f, k) == WriteEffect(ws, k);
    }
  }

  /** Merging a child into its parent means the parent's writes followed by the child's. */
  lemma MergeMeans(parent: Frame, child: Frame, pw: seq<Write>, cw: seq<Write>)
    requires Means(parent, pw) && Means(child, cw)
    ensures Means(Merge(parent, child), pw + cw)
  {
    forall k ensures FrameEffect(Merge(parent, child), k) == WriteEffect(pw + cw, k) {
      WriteEffectConcat(pw, cw, k);
      assert FrameEffect(parent, k) == WriteEffect(pw, k);
      assert FrameEffect(child, k) == WriteEffect(cw, k);
    }
  }

  /** The session is what its surviving and pending writes say, over the view `v0` it started from. */
  ghost predicate Tracks(s: Session, p: Pending, v0: View) {
    && s.view == RunWrites(v0, p.done)
    && |s.frames| == |p.open|
    && forall i :: 0 <= i < |s.frames| ==> Means(s.frames[i], p.open[i])
  }

  lemma CommitTracks(s: Session, p: Pending, v0: View)
    requires Tracks(s, p, v0)
    ensures Tracks(Step(s, Commit), EraseStep(p, Commit), v0)
  {
    if |s.frames| == 1 {
      ApplyFrameRuns(s.view, s.frames[0], p.open[0]);
      RunWritesConcat(v0, p.done, p.open[0]);
    } else if |s.frames| > 1 {
      MergeMeans(s.frames[1], s.frames[0], p.open[1], p.open[0]);
    }
  }

  lemma WriteTracks(s: Session, p: Pending, v0: View, w: Write)
    requires Tracks(s, p, v0)
    ensures Tracks(Step(s, DoWrite(w)), EraseStep(p, DoWrite(w)), v0)
  {
    if s.frames == [] {
      WriteOuter(s, p, v0, w);
    } else {
      WriteInner(s, p, v0, w);
    }
  }

  lemma WriteOuter(s: Session, p: Pending, v0: View, w: Write)
    requires Tracks(s, p, v0) && s.frames == []
    ensures Tracks(Step(s, DoWrite(w)), EraseStep(p, DoWrite(w)), v0)
  {
    assert (p.done + [w])[..|p.done|] == p.done;
  }

  lemma WriteInner(s: Session, p: Pending, v0: View, w: Write)
    requires Tracks(s, p, v0) && s.frames != []
    ensures Tracks(Step(s, DoWrite(w)), EraseStep(p, DoWrite(w)), v0)
  {
    RecordMeans(s.frames[0], p.open[0], w);
  }

  lemma StepTracks(s: Session, p: Pending, v0: View, op: Op)
    requires Tracks(s, p, v0)
    ensures Tracks(Step(s, op), EraseStep(p, op), v0)
  {
    match op
    case Begin =>
    case Rollback =>
    case Commit => CommitTracks(s, p, v0);
    case DoWrite(w) => WriteTracks(s, p, v0, w);
    case DoDirect(w) => assert (p.done + [w])[..|p.done|] == p.done;
  }

  lemma {:induction false} RunTracks(s: Session, p: Pending, v0: View, ops: seq<Op>)
    requires Tracks(s, p, v0)
    ensures Tracks(Exec(s, ops), Erase(p, ops), v0)
    decreases |ops|
  {
    if ops != [] {
      StepTracks(s, p, v0, ops[0]);
      RunTracks(Step(s, ops[0]), EraseStep(p, ops[0]), v0, ops[1..]);
    }
  }

  /**
   For every sequence of operations, balanced or not: the committed view is the surviving writes run directly, and each
   open frame means exactly the writes made in it.
   */
  lemma ErasesAborted(v0: View, ops: seq<Op>)
    ensures var s := Exec(Session([], v0), ops); var p := Erase(Pending([], []), ops);
            && s.view == RunWrites(v0, p.done)
            && |s.frames| == |p.open|
            && forall i :: 0 <= i < |s.frames| ==> Means(s.frames[i], p.open[i])
  {
    RunTracks(Session([], v0), Pending([], []), v0, ops);
  }

  // ---- Balanced runs, written as nested blocks ----

  datatype Block = One(w: Write) | Txn(body: seq<Block>, committed: bool)

  function Ops(bs: seq<Block>): seq<Op> {
    if bs == [] then []
    else
      (match bs[0] {
         case One(w) => [DoWrite(w)]
         case Txn(body, committed) => [Begin] + Ops(body) + [if committed then Commit else Rollback]
       }) + Ops(bs[1..])
  }

  /** The writes outside every rolled-back block, in order. */
  function Survivors(bs: seq<Block>): seq<Write> {
    if bs == [] then []
    else
      (match bs[0] {
         case One(w) => [w]
         case Txn(body, committed) => if committed then Survivors(body) else []
       }) + Survivors(bs[1..])
  }

  lemma {:induction false} EraseConcat(p: Pending, a: seq<Op>, b: seq<Op>)
    ensures Erase(p, a + b) == Erase(Erase(p, a), b)
    decreases |a|
  {
    if a == [] {
      assert a + b == b;
    } else {
      assert (a + b)[1..] == a[1..] + b;
      EraseConcat(EraseStep(p, a[0]), a[1..], b);
    }
  }

  /** Writes land in the innermost open transaction, or in the main store when none is open. */
  function Append(p: Pending, ws: seq<Write>): Pending {
    if p.open == [] then p.(done := p.done + ws) else p.(open := [p.open[0] + ws] + p.open[1..])
  }

  lemma AppendTwice(p: Pending, a: seq<Write>, b: seq<Write>)
    ensures Append(Append(p, a), b) == Append(p, a + b)
  {
    if p.open == [] {
      assert p.done + a + b == p.done + (a + b);
    } else {
      assert p.open[0] + a + b == p.open[0] + (a + b);
    }
  }

  lemma {:induction false} BlocksErase(p: Pending, bs: seq<Block>)
    ensures Erase(p, Ops(bs)) == Append(p, Survivors(bs))
    decreases bs
  {
    if bs == [] {
      AppendNothing(p);
    } else {
      var rest := Ops(bs[1..]);
      match bs[0] {
        case One(w) =>
          EraseConcat(p, [DoWrite(w)], rest);
          EraseOne(p, DoWrite(w));
          BlocksErase(Append(p, [w]), bs[1..]);
          AppendTwice(p, [w], Survivors(bs[1..]));
        case Txn(body, committed) =>
          var end := if committed then Commit else Rollback;
          EraseConcat(p, [Begin] + Ops(body) + [end], rest);
          EraseConcat(p, [Begin] + Ops(body), [end]);
          EraseConcat(p, [Begin], Ops(body));
          EraseOne(p, Begin);
          var inside := EraseStep(p, Begin);
          BlocksErase(inside, body);
          EraseOne(Append(inside, Survivors(body)), end);
          CloseBlock(p, Survivors(body), committed);
          var kept := if committed then Survivors(body) else [];
          BlocksErase(Append(p, kept), bs[1..]);
          AppendTwice(p, kept, Survivors(bs[1..]));
      }
    }
  }

  lemma AppendNothing(p: Pending)
    ensures Append(p, []) == p
  {
    if p.open != [] {
      assert p.open[0] + [] == p.open[0];
      assert [p.open[0]] + p.open[1..] == p.open;
    }
  }

  lemma EraseOne(p: Pending, op: Op)
    ensures Erase(p, [op]) == EraseStep(p, op)
  {
    assert [op][1..] == [];
  }

  lemma CloseBlock(p: Pending, ws: seq<Write>, committed: bool)
    ensures EraseStep(Append(EraseStep(p, Begin), ws), if committed then Commit else Rollback)
            == Append(p, if committed then ws else [])
  {
    AppendNothing(p);
    assert [] + ws == ws;
    assert ([[]] + p.open)[1..] == p.open;
    if committed && p.open != [] {
      assert ([[] + ws] + p.open)[2..] == p.open[1..];
    }
  }

  /**
   Nested transactions mean "erase the aborted parts": a balanced run leaves no frame open and commits exactly what
   running its surviving writes directly would have.
   */
  lemma BalancedRunsErase(v0: View, bs: seq<Block>)
    ensures Exec(Session([], v0), Ops(bs)) == Session([], RunWrites(v0, Survivors(bs)))
  {
    ErasesAborted(v0, Ops(bs));
    BlocksErase(Pending([], []), bs);
    assert [] + Survivors(bs) == Survivors(bs);
  }

  // ---- Reading through the stack ----

  /** The value of a key as a session sees it. Buffered values are returned whatever their expiry. */
  function Get(frames: seq<Frame>, v: View, now: int, key: Key): Option<Blob> {
    if frames == [] then
      (if key in v && !Lapsed(v[key].expiresAt, now) then Some(v[key].value) else None)
    else if key in frames[0].deleted then None
    else if key in frames[0].store then Some(frames[0].store[key])
    else Get(frames[1..], v, now, key)
  }

  const NO_EXPIRY := -1
  const NO_KEY := -2

  function Remaining(stamp: int, now: int): int {
    if stamp - now <= 0 then NO_KEY else (stamp - now) / 1_000_000_000
  }

  /** Remaining seconds of a key, -1 without expiry, -2 when absent or expired. */
  function Ttl(frames: seq<Frame>, v: View, now: int, key: Key): int {
    if frames == [] then
      (if key !in v then NO_KEY
       else if v[key].expiresAt > 0 then Remaining(v[key].expiresAt, now) else NO_EXPIRY)
    else if key in frames[0].deleted then NO_KEY
    else if key in frames[0].store then
      (if key in frames[0].expiry && frames[0].expiry[key].Some?
       then Remaining(frames[0].expiry[key].value, now) else NO_EXPIRY)
    else Ttl(frames[1..], v, now, key)
  }

  /** Committing into an outer transaction changes nothing the session can read. */
  lemma NestedCommitUnseen(s: Session, now: int, key: Key)
    requires |s.frames| >= 2 && WellFormed(s.frames[0]) && WellFormed(s.frames[1])
    ensures var s' := Step(s, Commit);
            && Get(s'.frames, s'.view, now, key) == Get(s.frames, s.view, now, key)
            && Ttl(s'.frames, s'.view, now, key) == Ttl(s.frames, s.view, now, key)
  {
    var s' := Step(s, Commit);
    assert s'.frames[1..] == s.frames[2..];
    assert s.frames[1..][1..] == s.frames[2..];
  }

  /**
   Committing into the main store changes what the session reads of a key exactly when the key's buffered expiry has
   already passed; remaining lifetimes it never changes.
   */
  lemma RootCommitSeen(s: Session, now: int, key: Key)
    requires |s.frames| == 1 && WellFormed(s.frames[0])
    requires forall k :: k in s.frames[0].expiry && s.frames[0].expiry[k].Some? ==> s.frames[0].expiry[k].value > 0
    ensures var s' := Step(s, Commit); var f := s.frames[0];
            && (Get(s'.frames, s'.view, now, key) == Get(s.frames, s.view, now, key)
                <==> !(key in f.store && Lapsed(Stamp(f.expiry[key]), now)))
            && Ttl(s'.frames, s'.view, now, key) == Ttl(s.frames, s.view, now, key)
  {
    assert s.frames[1..] == [];
  }

  // ---- Whether a key exists ----

  /** The innermost frame that mentions the key, if any, stores it. */
  predicate Buffers(frames: seq<Frame>, key: Key) {
    frames != [] && key !in frames[0].deleted && (key in frames[0].store || Buffers(frames[1..], key))
  }

  /** The expiry buffered with it. */
  function BufferedExpiry(frames: seq<Frame>, key: Key): Option<int>
    requires Buffers(frames, key)
  {
    if key !in frames[0].store then BufferedExpiry(frames[1..], key)
    else if key in frames[0].expiry then frames[0].expiry[key] else None
  }

  /** Some open frame stores or deletes the key. */
  predicate Mentions(frames: seq<Frame>, key: Key) {
    exists i :: 0 <= i < |frames| && (key in frames[i].deleted || key in frames[i].store)
  }

  /**
   Asking for a key and asking for its remaining lifetime disagree on whether it exists in two cases and no other: the
   session buffers it with an expiry that is not ahead, or it is committed and expires at this very instant.
   */
  lemma {:induction false} ExistenceDiffersIff(frames: seq<Frame>, v: View, now: int, key: Key)
    ensures ((Ttl(frames, v, now, key) == NO_KEY) != Get(frames, v, now, key).None?)
            <==>
            || (Buffers(frames, key) && BufferedExpiry(frames, key).Some? && BufferedExpiry(frames, key).value <= now)
            || (!Mentions(frames, key) && key in v && v[key].expiresAt > 0 && v[key].expiresAt == now)
  {
    if frames != [] && key !in frames[0].deleted && key !in frames[0].store {
      ExistenceDiffersIff(frames[1..], v, now, key);
      MentionsRest(frames, key);
    }
  }

  lemma MentionsRest(frames: seq<Frame>, key: Key)
    requires frames != [] && key !in frames[0].deleted && key !in frames[0].store
    ensures Mentions(frames, key) <==> Mentions(frames[1..], key)
  {
    if Mentions(frames, key) {
      var i :| 0 <= i < |frames| && (key in frames[i].deleted || key in frames[i].store);
      assert frames[1..][i - 1] == frames[i];
    }
    if Mentions(frames[1..], key) {
      var i :| 0 <= i < |frames| - 1 && (key in frames[1..][i].deleted || key in frames[1..][i].store);
      assert frames[i + 1] == frames[1..][i];
    }
  }

  /** A buffered value past its expiry can be read, though its lifetime says that there is none. */
  lemma LapsedBufferIsRead(s: Session, key: Key, data: Blob, stamp: int, now: int)
    requires stamp <= now
    ensures var s' := Step(Step(s, Begin), DoWrite(Put(key, data, Some(stamp))));
            Get(s'.frames, s'.view, now, key) == Some(data) && Ttl(s'.frames, s'.view, now, key) == NO_KEY
  {
  }

  /** A committed value can be read at the instant of its stamp, though its lifetime says that there is none. */
  lemma StampInstantIsRead(v: View, key: Key, data: Blob, now: int)
    requires now > 0
    ensures var s' := Step(Session([], v), DoWrite(Put(key, data, Some(now))));
            Get(s'.frames, s'.view, now, key) == Some(data) && Ttl(s'.frames, s'.view, now, key) == NO_KEY
  {
  }

  /** The key exists for the session, whatever its expiry. */
  predicate Present(frames: seq<Frame>, v: View, key: Key) { Buffers(frames, key) || (!Mentions(frames, key) && key in v) }

  /** Its expiry stamp, if it has one. */
  function ExpiryOf(frames: seq<Frame>, v: View, key: Key): Option<int>
    requires Present(frames, v, key)
  {
    if Buffers(frames, key) then BufferedExpiry(frames, key)
    else if v[key].expiresAt > 0 then Some(v[key].expiresAt) else None
  }

  /**
   What the answer `r` to the question for a remaining lifetime means: whole seconds up to a stamp that is ahead, -1 for
   a key without one, -2 for everything else.
   */
  ghost predicate TellsLifetime(frames: seq<Frame>, v: View, now: int, key: Key, r: int) {
    && -2 <= r
    && (r >= 0 <==> Present(frames, v, key) && ExpiryOf(frames, v, key).Some? && ExpiryOf(frames, v, key).value > now)
    && (r >= 0 ==> r * 1_000_000_000 <= ExpiryOf(frames, v, key).value - now < (r + 1) * 1_000_000_000)
    && (r == -1 <==> Present(frames, v, key) && ExpiryOf(frames, v, key).None?)
  }

  lemma {:induction false} TtlTells(frames: seq<Frame>, v: View, now: int, key: Key)
    ensures TellsLifetime(frames, v, now, key, Ttl(frames, v, now, key))
  {
    if frames != [] && key !in frames[0].deleted && key !in frames[0].store {
      TtlTells(frames[1..], v, now, key);
      MentionsRest(frames, key);
    }
  }

  // ---- Reading one's own writes ----

  /** All writes of the open transactions, outermost first. */
  function OpenWrites(open: seq<seq<Write>>): seq<Write> {
    if open == [] then [] else OpenWrites(open[1..]) + open[0]
  }

  /** What a session reads when `e` is what its pending writes do to the key. */
  function ReadThrough(v: View, now: int, key: Key, e: Effect): Option<Blob> {
    match e
    case Keep => if key in v && !(0 < v[key].expiresAt < now) then Some(v[key].value) else None
    case Gone => None
    case Becomes(item) => Some(item.value)
  }

  lemma {:induction false} StackReads(frames: seq<Frame>, open: seq<seq<Write>>, v: View, now: int, key: Key)
    requires |frames| == |open| && forall i :: 0 <= i < |frames| ==> Means(frames[i], open[i])
    ensures Get(frames, v, now, key) == ReadThrough(v, now, key, WriteEffect(OpenWrites(open), key))
    ensures Buffers(frames, key) <==> WriteEffect(OpenWrites(open), key).Becomes?
    ensures Buffers(frames, key) ==> Stamp(BufferedExpiry(frames, key)) == WriteEffect(OpenWrites(open), key).item.expiresAt
  {
    if frames != [] {
      StackReads(frames[1..], open[1..], v, now, key);
      WriteEffectConcat(OpenWrites(open[1..]), open[0], key);
      assert FrameEffect(frames[0], key) == WriteEffect(open[0], key);
    }
  }

  /**
   After every sequence of operations a session reads what its surviving writes, made for good, and then those of its
   open transactions would leave: its own writes at once, nobody's rolled-back ones.
   */
  lemma ReadsOwnWrites(v0: View, ops: seq<Op>, now: int, key: Key)
    ensures var s := Exec(Session([], v0), ops); var p := Erase(Pending([], []), ops);
            Get(s.frames, s.view, now, key) ==
            ReadThrough(RunWrites(v0, p.done), now, key, WriteEffect(OpenWrites(p.open), key))
  {
    ErasesAborted(v0, ops);
    var s, p := Exec(Session([], v0), ops), Erase(Pending([], []), ops);
    StackReads(s.frames, p.open, s.view, now, key);
  }
}
