/**
 Sessions over the shared database: the code that buffers writes in frames, merges them, commits them and reads through
 the stack.
 */
module Sessions {
  import opened Bytes
  import opened R = Recovery
  import opened Database
  import T = Transactions

  /** Per-connection transaction state over the shared database. */
  class Session {
    const db: BriseDb
    var frames: seq<T.Frame>   // frames[0] is the innermost transaction

    ghost predicate Valid()
      reads this, db
    {
      db.Valid() && forall i :: 0 <= i < |frames| ==> T.WellFormed(frames[i])
    }

    ghost function State(): T.Session
      reads this, db
      requires db.Valid()
    {
      T.Session(frames, db.View())
    }

    constructor (db: BriseDb)
      requires db.Valid()
      ensures Valid() && this.db == db && frames == []
    {
      this.db := db;
      frames := [];
    }

    method BeginTransaction()
      requires Valid()
      modifies this
      ensures Valid() && State() == T.Step(old(State()), T.Begin)
    {
      frames := [T.EMPTY_FRAME] + frames;
    }

    method RollbackTransaction() returns (ok: bool)
      requires Valid()
      modifies this
      ensures Valid() && ok == (old(frames) != [])
      ensures State() == T.Step(old(State()), T.Rollback)
    {
      if frames == [] {
        return false;
      }
      frames := frames[1..];
      ok := true;
    }

    /** Commits the innermost transaction into its parent, or into the main store when it is the outermost. */
    method CommitTransaction() returns (ok: bool)
      requires Valid()
      modifies this, db
      ensures Valid() && ok == (old(frames) != [])
      ensures State() == T.Step(old(State()), T.Commit)
      ensures db.Moved(old(db.State(0)), old(db.View()), old(db.stream))
    {
      db.Unmoved();
      if frames == [] {
        return false;
      }
      ok := true;
      if |frames| > 1 {
        var merged := MergeFrames(frames[1], frames[0]);
        MergeWellFormed(frames[1], frames[0]);
        frames := [merged] + frames[2..];
      } else {
        db.CommitFrame(frames[0]);
        frames := frames[1..];
      }
    }

    method Set(key: Key, value: Blob)
      requires Valid()
      modifies this, db
      ensures Valid() && State() == T.Step(old(State()), T.DoWrite(T.Put(key, value, None)))
      ensures old(frames) != [] ==> db.State(0) == old(db.State(0)) && db.stream == old(db.stream)
      ensures db.Moved(old(db.State(0)), old(db.View()), old(db.stream))
    {
      db.Unmoved();
      if frames != [] {
        Buffer(T.Put(key, value, None));
      } else {
        db.Put(key, value, 0);
      }
    }

    /** `now` is nanoseconds since 1970; a lifetime that is not positive is refused. */
    method SetEX(key: Key, value: Blob, now: nat, ttl: int) returns (ok: bool)
      requires Valid()
      modifies this, db
      ensures Valid() && ok == (ttl > 0)
      ensures State() == if ok then T.Step(old(State()), T.DoWrite(T.Put(key, value, Some(now + ttl)))) else old(State())
      ensures old(frames) != [] || !ok ==> db.State(0) == old(db.State(0)) && db.stream == old(db.stream)
      ensures db.Moved(old(db.State(0)), old(db.View()), old(db.stream))
    {
      db.Unmoved();
      if ttl <= 0 {
        return false;
      }
      ok := true;
      if frames != [] {
        Buffer(T.Put(key, value, Some(now + ttl)));
      } else {
        db.Put(key, value, now + ttl);
      }
    }

    /** Stores a blob at once, whatever transactions are open; a lifetime that is not positive means none. */
    method SetBlob(key: Key, data: Blob, now: nat, ttl: int)
      requires Valid()
      modifies db
      ensures Valid()
      ensures State() == T.Step(old(State()), T.DoDirect(T.Put(key, data, if ttl > 0 then Some(now + ttl) else None)))
      ensures db.View() == old(db.View())[key := T.Item(data, if ttl > 0 then now + ttl else 0)]
      ensures db.Moved(old(db.State(0)), old(db.View()), old(db.stream))
    {
      db.Put(key, data, if ttl > 0 then now + ttl else 0);
    }

    method Delete(key: Key)
      requires Valid()
      modifies this, db
      ensures Valid() && State() == T.Step(old(State()), T.DoWrite(T.Del(key)))
      ensures old(frames) != [] ==> db.State(0) == old(db.State(0)) && db.stream == old(db.stream)
      ensures db.Moved(old(db.State(0)), old(db.View()), old(db.stream))
    {
      db.Unmoved();
      if frames != [] {
        Buffer(T.Del(key));
      } else {
        db.Remove(key);
      }
    }

    /** Records a write in the innermost frame. */
    method Buffer(w: T.Write)
      requires Valid() && frames != []
      modifies this
      ensures Valid() && frames == [T.Record(old(frames)[0], w)] + old(frames)[1..]
    {
      var f := frames[0];
      match w {
        case Put(key, value, expiry) =>
          f := f.(deleted := f.deleted - {key});
          f := f.(store := f.store[key := value]);
          f := f.(expiry := f.expiry[key := expiry]);
        case Del(key) =>
          f := f.(store := f.store - {key});
          f := f.(expiry := f.expiry - {key});
          f := f.(deleted := f.deleted + {key});
      }
      frames := [f] + frames[1..];
    }

    /** Reads through the stack, then from the index and the volume. */
    method Get(key: Key, now: int) returns (r: Option<Blob>)
      requires Valid()
      ensures r == T.Get(frames, db.View(), now, key)
    {
      var i := 0;
      while i < |frames|
        invariant i <= |frames|
        invariant T.Get(frames, db.View(), now, key) == T.Get(frames[i..], db.View(), now, key)
      {
        if key in frames[i].deleted {
          return None;
        }
        if key in frames[i].store {
          return Some(frames[i].store[key]);
        }
        assert frames[i..][1..] == frames[i + 1..];
        i := i + 1;
      }
      if key !in db.index {
        return None;
      }
      var slot := db.index[key];
      if slot.expiresAt > 0 && now > slot.expiresAt {
        return None;
      }
      return Some(db.blobs[slot.addr]);
    }

    method TTL(key: Key, now: int) returns (r: int)
      requires Valid()
      ensures r == T.Ttl(frames, db.View(), now, key)
      ensures T.TellsLifetime(frames, db.View(), now, key, r)
    {
      T.TtlTells(frames, db.View(), now, key);
      var i := 0;
      while i < |frames|
        invariant i <= |frames|
        invariant T.Ttl(frames, db.View(), now, key) == T.Ttl(frames[i..], db.View(), now, key)
      {
        var f := frames[i];
        if key in f.deleted {
          return T.NO_KEY;
        }
        if key in f.store {
          if key in f.expiry && f.expiry[key].Some? {
            var rem := f.expiry[key].value - now;
            return if rem <= 0 then T.NO_KEY else rem / 1_000_000_000;
          }
          return T.NO_EXPIRY;
        }
        assert frames[i..][1..] == frames[i + 1..];
        i := i + 1;
      }
      if key !in db.index {
        return T.NO_KEY;
      }
      if db.index[key].expiresAt > 0 {
        var rem := db.index[key].expiresAt - now;
        return if rem <= 0 then T.NO_KEY else rem / 1_000_000_000;
      }
      return T.NO_EXPIRY;
    }

    /** The keys for which `Get` returns the given value. */
    ghost function Holders(value: Blob, now: int): set<Key>
      reads this, db
      requires db.Valid()
    {
      set k | k in MentionedKeys(frames, db.index) && T.Get(frames, db.View(), now, k) == Some(value)
    }

    /** The keys whose live committed value it is, outside the given overrides and deletion marks. */
    ghost function Unhidden(value: Blob, now: int, over: map<Key, Blob>, dels: set<Key>): set<Key>
      reads this, db
      requires db.Valid()
    {
      set k | k in db.index && k !in dels && k !in over && T.Get([], db.View(), now, k) == Some(value)
    }

    /** Counts the keys with a value: overrides first gathered from the stack, then the index, then the overrides. */
    method Count(value: Blob, now: int) returns (count: nat)
      requires Valid()
      ensures count == |Holders(value, now)|
      ensures forall k :: T.Get(frames, db.View(), now, k) == Some(value) ==> k in Holders(value, now)
    {
      var over, dels := Overrides(frames);
      var committed := CountCommitted(value, now, over, dels);
      var buffered := CountBuffered(value, over);
      count := committed + buffered;
      HoldersMentioned(value, now);
      HoldersSplit(value, now, over, dels);
    }

    lemma HoldersMentioned(value: Blob, now: int)
      requires Valid()
      ensures forall k :: T.Get(frames, db.View(), now, k) == Some(value) ==> k in Holders(value, now)
    {
      forall k | T.Get(frames, db.View(), now, k) == Some(value) ensures k in MentionedKeys(frames, db.index) {
        GetMentions(frames, db.index, db.View(), now, k);
      }
    }

    /** The keys with the value are those still showing through from the index and those overridden with it. */
    lemma HoldersSplit(value: Blob, now: int, over: map<Key, Blob>, dels: set<Key>)
      requires Valid() && forall k :: Settles(over, dels, k, TxEffect(frames, k))
      ensures Unhidden(value, now, over, dels) + Holding(over, value) == Holders(value, now)
      ensures Unhidden(value, now, over, dels) !! Holding(over, value)
    {
      var split := Unhidden(value, now, over, dels) + Holding(over, value);
      forall k ensures k in split <==> T.Get(frames, db.View(), now, k) == Some(value) {
        GetThrough(frames, db.View(), now, k);
        assert Settles(over, dels, k, TxEffect(frames, k));
      }
      HoldersMentioned(value, now);
    }

    method CountCommitted(value: Blob, now: int, over: map<Key, Blob>, dels: set<Key>) returns (count: nat)
      requires Valid()
      ensures count == |Unhidden(value, now, over, dels)|
    {
      var live := LiveIndex(db.index, now);
      var todo := live.Keys;
      count := 0;
      ghost var counted: set<Key> := {};
      while todo != {}
        invariant todo <= live.Keys && count == |counted|
        invariant forall k :: k in counted <==>
                    k in live && k !in todo && k !in dels && k !in over && db.blobs[live[k].addr] == value
        decreases todo
      {
        var k :| k in todo;
        if k !in dels && k !in over && db.blobs[live[k].addr] == value {
          count := count + 1;
          counted := counted + {k};
        }
        todo := todo - {k};
      }
      assert counted == Unhidden(value, now, over, dels);
    }
  }

  ghost function Holding(m: map<Key, Blob>, value: Blob): set<Key> {
    set k | k in m && m[k] == value
  }

  method CountBuffered(value: Blob, over: map<Key, Blob>) returns (count: nat)
    ensures count == |Holding(over, value)|
  {
    var todo := over.Keys;
    count := 0;
    ghost var counted: set<Key> := {};
    while todo != {}
      invariant todo <= over.Keys && count == |counted|
      invariant forall k :: k in counted <==> k in over && k !in todo && over[k] == value
      decreases todo
    {
      var k :| k in todo;
      if over[k] == value {
        count := count + 1;
        counted := counted + {k};
      }
      todo := todo - {k};
    }
    assert counted == Holding(over, value);
  }

  ghost function MentionedKeys(frames: seq<T.Frame>, index: map<Key, Slot>): set<Key> {
    if frames == [] then index.Keys else frames[0].store.Keys + MentionedKeys(frames[1..], index)
  }

  datatype TxRead = Through | Absent | Present(value: Blob)

  /** What the stack says of a key: the innermost frame that mentions it decides. */
  function TxEffect(frames: seq<T.Frame>, k: Key): TxRead {
    if frames == [] then Through
    else if k in frames[0].deleted then Absent
    else if k in frames[0].store then Present(frames[0].store[k])
    else TxEffect(frames[1..], k)
  }

  lemma {:induction false} GetThrough(frames: seq<T.Frame>, v: T.View, now: int, k: Key)
    ensures T.Get(frames, v, now, k) == match TxEffect(frames, k) {
                                          case Through => T.Get([], v, now, k)
                                          case Absent => None
                                          case Present(value) => Some(value)
                                        }
  {
    if frames != [] {
      GetThrough(frames[1..], v, now, k);
    }
  }

  lemma {:induction false} GetMentions(frames: seq<T.Frame>, index: map<Key, Slot>, v: T.View, now: int, k: Key)
    requires v.Keys == index.Keys && T.Get(frames, v, now, k).Some?
    ensures k in MentionedKeys(frames, index)
  {
    if frames != [] && k !in frames[0].store {
      GetMentions(frames[1..], index, v, now, k);
    }
  }

  /** The gathered overrides agree with the stack: the deletion marks may also cover overridden keys. */
  ghost predicate Settles(over: map<Key, Blob>, dels: set<Key>, k: Key, e: TxRead) {
    match e
    case Through => k !in over && k !in dels
    case Absent => k !in over && k in dels
    case Present(value) => k in over && over[k] == value
  }

  lemma {:induction false} TxEffectSnoc(frames: seq<T.Frame>, f: T.Frame, k: Key)
    ensures TxEffect(frames + [f], k) == if TxEffect(frames, k).Through? then TxEffect([f], k) else TxEffect(frames, k)
  {
    if frames == [] {
      assert frames + [f] == [f];
    } else {
      assert (frames + [f])[1..] == frames[1..] + [f];
      TxEffectSnoc(frames[1..], f, k);
    }
  }

  /** Gathers overrides and deletion marks, innermost frame first; the first frame to mention a key wins. */
  method Overrides(frames: seq<T.Frame>) returns (over: map<Key, Blob>, dels: set<Key>)
    requires forall i :: 0 <= i < |frames| ==> T.WellFormed(frames[i])
    ensures forall k :: Settles(over, dels, k, TxEffect(frames, k))
  {
    over, dels := map[], {};
    for i := 0 to |frames|
      invariant forall k :: Settles(over, dels, k, TxEffect(frames[..i], k))
    {
      var over', dels' := OverrideFrame(over, dels, frames[i]);
      ghost var upTo := frames[..i + 1];
      assert upTo == frames[..i] + [frames[i]];
      forall k ensures Settles(over', dels', k, TxEffect(upTo, k)) {
        TxEffectSnoc(frames[..i], frames[i], k);
        assert Settles(over, dels, k, TxEffect(frames[..i], k));
      }
      over, dels := over', dels';
    }
    assert frames[..|frames|] == frames;
  }

  method OverrideFrame(over0: map<Key, Blob>, dels0: set<Key>, f: T.Frame) returns (over: map<Key, Blob>, dels: set<Key>)
    ensures over == (map k | k in f.store && k !in dels0 :: f.store[k]) + over0
    ensures dels == dels0 + f.deleted
  {
    over := over0;
    var todo := f.store.Keys;
    while todo != {}
      invariant todo <= f.store.Keys
      invariant over == (map k | k in f.store && k !in todo && k !in dels0 :: f.store[k]) + over0
      decreases todo
    {
      var k :| k in todo;
      if k !in over && k !in dels0 {
        over := over[k := f.store[k]];
      }
      todo := todo - {k};
    }
    dels := dels0;
    todo := f.deleted;
    while todo != {}
      invariant todo <= f.deleted && dels == dels0 + (f.deleted - todo)
      decreases todo
    {
      var k :| k in todo;
      dels := dels + {k};
      todo := todo - {k};
    }
  }

  lemma MergeWellFormed(parent: T.Frame, child: T.Frame)
    requires T.WellFormed(parent) && T.WellFormed(child)
    ensures T.WellFormed(T.Merge(parent, child))
  {
  }

  /** The three merge loops, each in whatever order the map iteration takes. */
  method MergeFrames(parent: T.Frame, child: T.Frame) returns (merged: T.Frame)
    ensures merged == T.Merge(parent, child)
  {
    var store, deleted := MergeStores(parent, child);
    store, deleted := MergeDeletes(store, deleted, child.deleted);
    var expiry := MergeExpiries(parent.expiry, child.expiry);
    merged := T.Frame(store, deleted, expiry);
  }

  method MergeExpiries(parent: map<Key, Option<int>>, child: map<Key, Option<int>>) returns (expiry: map<Key, Option<int>>)
    ensures expiry == parent + child
  {
    expiry := parent;
    var todo := child.Keys;
    while todo != {}
      invariant todo <= child.Keys
      invariant expiry == parent + map k | k in child && k !in todo :: child[k]
      decreases todo
    {
      var k :| k in todo;
      expiry := expiry[k := child[k]];
      todo := todo - {k};
    }
  }

  method MergeStores(parent: T.Frame, child: T.Frame) returns (store: map<Key, Blob>, deleted: set<Key>)
    ensures store == parent.store + child.store && deleted == parent.deleted - child.store.Keys
  {
    store, deleted := parent.store, parent.deleted;
    var todo := child.store.Keys;
    while todo != {}
      invariant todo <= child.store.Keys
      invariant store == parent.store + map k | k in child.store && k !in todo :: child.store[k]
      invariant deleted == parent.deleted - (child.store.Keys - todo)
      decreases todo
    {
      var k :| k in todo;
      deleted := deleted - {k};
      store := store[k := child.store[k]];
      todo := todo - {k};
    }
  }

  method MergeDeletes(store0: map<Key, Blob>, deleted0: set<Key>, removed: set<Key>)
    returns (store: map<Key, Blob>, deleted: set<Key>)
    ensures store == store0 - removed && deleted == deleted0 + removed
  {
    store, deleted := store0, deleted0;
    var todo := removed;
    while todo != {}
      invariant todo <= removed
      invariant store == store0 - (removed - todo) && deleted == deleted0 + (removed - todo)
      decreases todo
    {
      var k :| k in todo;
      store := store - {k};
      deleted := deleted + {k};
      todo := todo - {k};
    }
  }
}
