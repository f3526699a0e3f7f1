/**
 The shared database: index, volume, TTL cache, write-ahead log and replication stream, with the code that moves them
 together, the background work on them and the two ways of starting up.
 */
module Database {
  import opened Bytes
  import opened Expiry
  import opened R = Recovery
  import T = Transactions

  datatype PendingSet = PendingSet(key: Key, value: Blob, addr: nat, expiresAt: int)

  ghost predicate Backed(index: map<Key, Slot>, blobs: seq<Blob>) {
    forall k :: k in index ==> index[k].addr < |blobs|
  }

  /** The values behind an index. */
  ghost function ViewOf(index: map<Key, Slot>, blobs: seq<Blob>): T.View
    requires Backed(index, blobs)
  {
    map k | k in index :: T.Item(blobs[index[k].addr], index[k].expiresAt)
  }

  /** Appending blobs changes no value. */
  lemma ViewGrow(index: map<Key, Slot>, blobs: seq<Blob>, blobs': seq<Blob>)
    requires Backed(index, blobs) && blobs <= blobs'
    ensures Backed(index, blobs') && ViewOf(index, blobs') == ViewOf(index, blobs)
  {
  }

  lemma ViewPut(index: map<Key, Slot>, blobs: seq<Blob>, k: Key, s: Slot)
    requires Backed(index, blobs) && s.addr < |blobs|
    ensures Backed(index[k := s], blobs)
    ensures ViewOf(index[k := s], blobs) == ViewOf(index, blobs)[k := T.Item(blobs[s.addr], s.expiresAt)]
  {
  }

  lemma ViewDrop(index: map<Key, Slot>, blobs: seq<Blob>, ks: set<Key>)
    requires Backed(index, blobs)
    ensures Backed(index - ks, blobs) && ViewOf(index - ks, blobs) == ViewOf(index, blobs) - ks
  {
  }

  function SetRecords(sets: seq<PendingSet>): seq<WalEntry> {
    if sets == [] then []
    else var p := sets[|sets| - 1]; SetRecords(sets[..|sets| - 1]) + [LogSet(p.key, p.addr, p.expiresAt)]
  }

  function SetMessages(sets: seq<PendingSet>): seq<T.Write> {
    if sets == [] then []
    else var p := sets[|sets| - 1]; SetMessages(sets[..|sets| - 1]) + [T.Put(p.key, p.value, Some(p.expiresAt))]
  }

  /** The database state sessions share. A blob's address is its position in the append-only volume. */
  class BriseDb {
    const coding: Coding       // how log records fare in the log file
    var index: map<Key, Slot>
    var blobs: seq<Blob>
    var ttl: map<Key, int>
    var wal: seq<WalEntry>
    var stream: seq<T.Write>   // everything fanned out to replicas; an absent expiry travels as stamp 0

    ghost predicate Valid()
      reads this
    {
      Backed(index, blobs)
    }

    ghost function View(): T.View
      reads this
      requires Valid()
    {
      ViewOf(index, blobs)
    }

    /** The shared state as the recovery model sees it. */
    ghost function State(clock: int): R.Db
      reads this
    {
      R.Db(index, ttl, wal, clock)
    }

    /**
     Since the earlier state, the database made one serial write step: the log gained some records, and index and cache
     moved exactly as those records say; the stream gained some messages, and the view moved exactly as those say.
     */
    ghost predicate Moved(db0: R.Db, view0: T.View, stream0: seq<T.Write>)
      reads this
      requires Valid()
    {
      && db0.wal <= wal && stream0 <= stream
      && State(db0.clock) == R.Do(coding, db0, DoWrite(wal[|db0.wal|..]))
      && View() == T.RunWrites(view0, stream[|stream0|..])
    }

    constructor (coding: Coding)
      ensures Valid() && index == map[] && ttl == map[] && wal == [] && stream == [] && blobs == []
    {
      this.coding := coding;
      index, blobs, ttl, wal, stream := map[], [], map[], [], [];
    }

    method WriteBlob(value: Blob) returns (addr: nat)
      modifies this`blobs
      ensures addr == |old(blobs)| && blobs == old(blobs) + [value]
    {
      addr := |blobs|;
      blobs := blobs + [value];
    }

    /** The direct path of Set, SetEX and SetBlob. */
    method Put(key: Key, value: Blob, expiresAt: int)
      requires Valid()
      modifies this
      ensures Valid()
      ensures View() == old(View())[key := T.Item(value, expiresAt)]
      ensures wal == old(wal) + [LogSet(key, |old(blobs)|, expiresAt)] && blobs == old(blobs) + [value]
      ensures stream == old(stream) + [T.Put(key, value, Some(expiresAt))]
      ensures Moved(old(State(0)), old(View()), old(stream))
    {
      var addr := WriteBlob(value);
      ViewGrow(index, old(blobs), blobs);
      ViewPut(index, blobs, key, Slot(addr, expiresAt));
      index := index[key := Slot(addr, expiresAt)];
      ttl := if expiresAt > 0 then ttl[key := expiresAt] else ttl - {key};
      wal := wal + [LogSet(key, addr, expiresAt)];
      stream := stream + [T.Put(key, value, Some(expiresAt))];
      OneRecord(old(index), old(ttl), LogSet(key, addr, expiresAt));
      OneWrite(old(View()), T.Put(key, value, Some(expiresAt)));
      assert wal[|old(wal)|..] == [LogSet(key, addr, expiresAt)];
      assert stream[|old(stream)|..] == [T.Put(key, value, Some(expiresAt))];
    }

    /** The direct path of Delete: nothing at all happens for a key the index does not hold. */
    method Remove(key: Key)
      requires Valid()
      modifies this
      ensures Valid()
      ensures View() == old(View()) - {key} && blobs == old(blobs)
      ensures key in old(index) ==> wal == old(wal) + [LogDelete(key)] && stream == old(stream) + [T.Del(key)]
      ensures key !in old(index) ==>
                wal == old(wal) && stream == old(stream) && index == old(index) && ttl == old(ttl)
      ensures Moved(old(State(0)), old(View()), old(stream))
    {
      if key in index {
        ViewDrop(index, blobs, {key});
        index := index - {key};
        ttl := ttl - {key};
        wal := wal + [LogDelete(key)];
        stream := stream + [T.Del(key)];
        OneRecord(old(index), old(ttl), LogDelete(key));
        OneWrite(old(View()), T.Del(key));
        assert wal[|old(wal)|..] == [LogDelete(key)];
        assert stream[|old(stream)|..] == [T.Del(key)];
      }
    }

    lemma Unmoved()
      requires Valid()
      ensures Moved(State(0), View(), stream)
    {
      assert wal[|wal|..] == [] && stream[|stream|..] == [];
    }

    // ---- Root commit ----

    /** Values are written to the volume before any lock is taken. */
    method Stage(f: T.Frame) returns (sets: seq<PendingSet>)
      modifies this`blobs
      ensures old(blobs) <= blobs
      ensures Staged(sets, f, blobs) && KeysOf(sets) == f.store.Keys && |sets| == |f.store|
    {
      sets := [];
      var todo := f.store.Keys;
      while todo != {}
        invariant old(blobs) <= blobs
        invariant Staged(sets, f, blobs)
        invariant forall k :: k in f.store <==> k in KeysOf(sets) || k in todo
        invariant |sets| + |todo| == |f.store.Keys|
        decreases todo
      {
        var k :| k in todo;
        ghost var before := blobs;
        var addr := WriteBlob(f.store[k]);
        var expiresAt := if k in f.expiry && f.expiry[k].Some? then f.expiry[k].value else 0;
        StageOne(sets, f, before, PendingSet(k, f.store[k], addr, expiresAt));
        sets := sets + [PendingSet(k, f.store[k], addr, expiresAt)];
        todo := todo - {k};
      }
    }

    method ApplySets(sets: seq<PendingSet>)
      modifies this`index, this`ttl
      ensures index == ApplyAll(old(index), SetRecords(sets)) && ttl == ApplyAllTtl(old(ttl), SetRecords(sets))
    {
      for i := 0 to |sets|
        invariant index == ApplyAll(old(index), SetRecords(sets[..i]))
        invariant ttl == ApplyAllTtl(old(ttl), SetRecords(sets[..i]))
      {
        var p := sets[i];
        assert sets[..i + 1][..i] == sets[..i];
        NextRecord(old(index), old(ttl), SetRecords(sets[..i]), LogSet(p.key, p.addr, p.expiresAt));
        ttl := if p.expiresAt > 0 then ttl[p.key := p.expiresAt] else ttl - {p.key};
        index := index[p.key := Slot(p.addr, p.expiresAt)];
      }
      assert sets[..|sets|] == sets;
    }

    method ApplyDeletes(deleted: set<Key>)
      modifies this`index, this`ttl
      ensures index == old(index) - deleted && ttl == old(ttl) - deleted
    {
      var todo := deleted;
      while todo != {}
        invariant todo <= deleted
        invariant index == old(index) - (deleted - todo) && ttl == old(ttl) - (deleted - todo)
        decreases todo
      {
        var k :| k in todo;
        if k in index {
          index := index - {k};
        }
        ttl := ttl - {k};
        todo := todo - {k};
      }
    }

    method LogSets(sets: seq<PendingSet>)
      modifies this`wal, this`stream
      ensures wal == old(wal) + SetRecords(sets) && stream == old(stream) + SetMessages(sets)
    {
      for i := 0 to |sets|
        invariant wal == old(wal) + SetRecords(sets[..i]) && stream == old(stream) + SetMessages(sets[..i])
      {
        assert sets[..i + 1][..i] == sets[..i];
        wal := wal + [LogSet(sets[i].key, sets[i].addr, sets[i].expiresAt)];
        stream := stream + [T.Put(sets[i].key, sets[i].value, Some(sets[i].expiresAt))];
      }
      assert sets[..|sets|] == sets;
    }

    /** The deletes are logged in an order of their own. */
    method LogDeletes(deleted: set<Key>) returns (ghost keys: seq<Key>)
      modifies this`wal, this`stream
      ensures wal == old(wal) + DeleteRecords(keys) && stream == old(stream) + DeleteMessages(keys)
      ensures (forall k :: k in keys <==> k in deleted) && |keys| == |deleted|
    {
      keys := [];
      var todo := deleted;
      while todo != {}
        invariant todo <= deleted
        invariant (forall k :: k in keys <==> k in deleted && k !in todo) && |keys| + |todo| == |deleted|
        invariant wal == old(wal) + DeleteRecords(keys) && stream == old(stream) + DeleteMessages(keys)
        decreases todo
      {
        var k :| k in todo;
        NextDelete(keys, k);
        wal := wal + [LogDelete(k)];
        stream := stream + [T.Del(k)];
        keys := keys + [k];
        todo := todo - {k};
      }
    }

    /** Merges the outermost frame into the main store. */
    method CommitFrame(f: T.Frame)
      requires Valid() && T.WellFormed(f)
      modifies this
      ensures Valid()
      ensures View() == T.ApplyFrame(old(View()), f)
      ensures |wal| == |old(wal)| + |f.store| + |f.deleted| && |stream| == |old(stream)| + |f.store| + |f.deleted|
      ensures Moved(old(State(0)), old(View()), old(stream))
    {
      var sets := Stage(f);
      ViewGrow(index, old(blobs), blobs);
      ghost var records, messages := PublishStaged(f, sets);
      assert wal[|old(wal)|..] == records && stream[|old(stream)|..] == messages;
    }

    /** Index and cache first, then log and stream. */
    method PublishStaged(f: T.Frame, sets: seq<PendingSet>)
      returns (ghost records: seq<WalEntry>, ghost messages: seq<T.Write>)
      requires Valid() && T.WellFormed(f) && Staged(sets, f, blobs) && KeysOf(sets) == f.store.Keys
      modifies this`index, this`ttl, this`wal, this`stream
      ensures Valid() && View() == T.ApplyFrame(old(View()), f)
      ensures State(0) == R.Write(old(State(0)), records)
      ensures stream == old(stream) + messages && View() == T.RunWrites(old(View()), messages)
      ensures |records| == |messages| == |sets| + |f.deleted|
    {
      ApplySets(sets);
      ApplyDeletes(f.deleted);
      LogSets(sets);
      ghost var keys := LogDeletes(f.deleted);
      CommitEffect(old(index), old(ttl), blobs, f, sets, keys);
      records, messages := SetRecords(sets) + DeleteRecords(keys), SetMessages(sets) + DeleteMessages(keys);
      ListLengths(sets, keys);
      Assoc(old(wal), SetRecords(sets), DeleteRecords(keys));
      Assoc(old(stream), SetMessages(sets), DeleteMessages(keys));
    }

    // ---- Replication ----

    /** All live keys with their values, for a new replica. */
    method Snapshot(now: int) returns (out: seq<T.Write>)
      requires Valid()
      ensures forall k :: T.WriteEffect(out, k) ==
                if k in View() && !Lapsed(View()[k].expiresAt, now) then T.Becomes(View()[k]) else T.Keep
      ensures T.Quotes(out, View())
    {
      var live := LiveIndex(index, now);
      var todo := live.Keys;
      ghost var done: set<Key> := {};
      out := [];
      while todo != {}
        invariant done + todo == live.Keys && T.QuotesKeys(out, View(), done)
        decreases todo
      {
        var k :| k in todo;
        T.QuoteMore(out, View(), done, k);
        out := out + [T.Put(k, blobs[live[k].addr], Some(live[k].expiresAt))];
        done, todo := done + {k}, todo - {k};
      }
    }

    /** A replica applies an entry: the value goes to its own volume, index and log follow; nothing is fanned out. */
    method ApplyReplicationEntry(w: T.Write)
      requires Valid()
      modifies this
      ensures Valid() && View() == T.ApplyWrite(old(View()), w) && stream == old(stream)
      ensures |wal| == |old(wal)| + 1 && State(0) == R.Do(coding, old(State(0)), DoWrite([wal[|old(wal)|]]))
    {
      var op;
      match w {
        case Put(key, value, expiry) =>
          var addr := WriteBlob(value);
          ViewGrow(index, old(blobs), blobs);
          ViewPut(index, blobs, key, Slot(addr, T.Stamp(expiry)));
          op := LogSet(key, addr, T.Stamp(expiry));
        case Del(key) =>
          ViewDrop(index, blobs, {key});
          op := LogDelete(key);
      }
      ApplyEntry(op);
      wal := wal + [op];
      OneRecord(old(index), old(ttl), op);
    }

    // ---- Background work and recovery ----

    /** Drops every key whose cached expiry has passed. */
    method EvictExpired(now: int, ghost clock: int)
      requires Valid()
      modifies this`index, this`ttl
      ensures Valid() && State(now) == R.Do(coding, old(State(clock)), DoEvict(now))
      ensures forall k :: k in old(ttl) && old(ttl)[k] < now ==> k !in index && k !in ttl
      ensures forall k :: !(k in old(ttl) && old(ttl)[k] < now) ==>
                && (k in index <==> k in old(index)) && (k in index ==> index[k] == old(index)[k])
                && (k in ttl <==> k in old(ttl)) && (k in ttl ==> ttl[k] == old(ttl)[k])
    {
      var todo := ttl.Keys;
      ghost var gone: set<Key> := {};
      while todo != {}
        invariant index == old(index) - gone && ttl == old(ttl) - gone
        invariant todo <= ttl.Keys
        invariant forall k :: k in gone <==> k in old(ttl) && k !in todo && now > old(ttl)[k]
        decreases todo
      {
        var k :| k in todo;
        if now > ttl[k] {
          index := index - {k};
          ttl := ttl - {k};
          gone := gone + {k};
        }
        todo := todo - {k};
      }
      assert gone == set k | k in old(ttl) && now > old(ttl)[k];
    }

    /** Rewrites the index to its live part and the log to one record per live key, in whatever order the scan gives. */
    method Compact(now: int, ghost clock: int)
      requires Valid()
      modifies this`index, this`wal
      ensures Valid() && Lists(wal, index) && |wal| == |index|
      ensures State(now) == R.Do(coding, old(State(clock)), DoCompact(now, wal))
      ensures forall k :: k in index <==> k in old(index) && !(0 < old(index)[k].expiresAt < now)
      ensures forall k :: k in index ==> index[k] == old(index)[k]
    {
      var live := LiveIndex(index, now);
      index := live;
      wal := ListIndex(live);
    }

    static method ListIndex(live: map<Key, Slot>) returns (records: seq<WalEntry>)
      ensures Lists(records, live) && |records| == |live|
    {
      records := [];
      var done: map<Key, Slot> := map[];
      var todo := live.Keys;
      while todo != {}
        invariant forall k :: k in live <==> k in done || k in todo
        invariant forall k :: k in done ==> k in live && done[k] == live[k]
        invariant Lists(records, done) && |records| == |done| && done.Keys !! todo
        decreases todo
      {
        var k :| k in todo;
        ListOne(records, done, k, live[k]);
        records := records + [LogSet(k, live[k].addr, live[k].expiresAt)];
        done := done[k := live[k]];
        todo := todo - {k};
      }
      assert done == live;
    }

    /**
     Startup with an index whose entry count reads zero: the log is read line by line and applied. A line the scanner
     cannot take in ends it with an error, after the lines before it have been applied.
     */
    method ReplayWal(now: int, ghost clock: int) returns (ok: bool, ghost m: nat)
      requires ttl == map[]
      modifies this`index, this`ttl
      ensures ok <==> Opens(coding, wal)
      ensures ok ==> State(now) == R.Do(coding, old(State(clock)), DoRestartReplay(now))
      ensures ok ==> index == Replay(old(index), Read(coding, wal), now)
      ensures !ok ==> m < |wal| && coding.line(wal[m]) >= LINE_CAP && Opens(coding, wal[..m])
                      && index == Replay(old(index), Read(coding, wal[..m]), now)
    {
      ghost var records: seq<WalEntry> := [];
      for i := 0 to |wal|
        invariant Opens(coding, wal[..i]) && records == Read(coding, wal[..i])
        invariant Replayed(records, old(index), now)
      {
        if coding.line(wal[i]) >= LINE_CAP {
          return false, i;
        }
        var op := CodedEntry(coding, wal[i]);
        assert wal[..i + 1][..i] == wal[..i];
        ReplayLine(op, now, records, old(index));
        records := records + [op];
      }
      assert wal[..|wal|] == wal;
      ok, m := true, |wal|;
    }

    /** Index and cache after these records have been replayed over `base`. */
    ghost predicate Replayed(records: seq<WalEntry>, base: map<Key, Slot>, now: int)
      reads this
    {
      index == ApplyAll(base, Kept(records, now)) && ttl == ApplyAllTtl(map[], Kept(records, now))
    }

    method ReplayLine(op: WalEntry, now: int, ghost records: seq<WalEntry>, ghost base: map<Key, Slot>)
      requires Replayed(records, base, now)
      modifies this`index, this`ttl
      ensures Replayed(records + [op], base, now)
    {
      NextKept(records, op, now);
      NextRecord(base, map[], Kept(records, now), op);
      if !(op.LogSet? && op.expiresAt > 0 && op.expiresAt * 1_000_000_000 < now) {
        ApplyEntry(op);
      }
    }

    method ApplyEntry(op: WalEntry)
      modifies this`index, this`ttl
      ensures index == ApplyToIndex(old(index), op) && ttl == ApplyToTtl(old(ttl), op)
    {
      match op {
        case LogSet(key, addr, expiresAt) =>
          index := index[key := Slot(addr, expiresAt)];
          ttl := if expiresAt > 0 then ttl[key := expiresAt] else ttl - {key};
        case LogDelete(key) =>
          index := index - {key};
          ttl := ttl - {key};
      }
    }

    /** Startup with a populated index: the cache is refilled from the keys still live. */
    method RebuildExpiry(now: int, ghost clock: int)
      requires ttl == map[]
      modifies this`ttl
      ensures State(now) == R.Do(coding, old(State(clock)), DoRestartRebuild(now))
      ensures forall k :: k in ttl <==> k in index && index[k].expiresAt > 0 && now <= index[k].expiresAt
      ensures forall k :: k in ttl ==> ttl[k] == index[k].expiresAt
    {
      var live := LiveIndex(index, now);
      var todo := live.Keys;
      while todo != {}
        invariant todo <= live.Keys
        invariant ttl == map k | k in live && k !in todo && live[k].expiresAt > 0 :: live[k].expiresAt
        decreases todo
      {
        var k :| k in todo;
        if live[k].expiresAt > 0 {
          ttl := ttl[k := live[k].expiresAt];
        }
        todo := todo - {k};
      }
    }
  }

  lemma ListOne(wal: seq<WalEntry>, index: map<Key, Slot>, key: Key, s: Slot)
    requires Lists(wal, index) && (key in index ==> index[key] == s)
    ensures Lists(wal + [LogSet(key, s.addr, s.expiresAt)], index[key := s])
  {
    var wal' := wal + [LogSet(key, s.addr, s.expiresAt)];
    var index' := index[key := s];
    forall k | k in index' ensures exists i :: 0 <= i < |wal'| && wal'[i].key == k {
      if k == key {
        assert wal'[|wal|].key == k;
      } else {
        var i :| 0 <= i < |wal| && wal[i].key == k;
        assert wal'[i].key == k;
      }
    }
  }

  // ---- Lists of records and messages ----

  lemma OneRecord(index: map<Key, Slot>, ttl: map<Key, int>, e: WalEntry)
    ensures ApplyAll(index, [e]) == ApplyToIndex(index, e) && ApplyAllTtl(ttl, [e]) == ApplyToTtl(ttl, e)
  {
    NextRecord(index, ttl, [], e);
  }

  lemma NextRecord(index: map<Key, Slot>, ttl: map<Key, int>, es: seq<WalEntry>, e: WalEntry)
    ensures ApplyAll(index, es + [e]) == ApplyToIndex(ApplyAll(index, es), e)
    ensures ApplyAllTtl(ttl, es + [e]) == ApplyToTtl(ApplyAllTtl(ttl, es), e)
  {
    assert (es + [e])[..|es|] == es;
  }

  lemma NextKept(records: seq<WalEntry>, op: WalEntry, now: int)
    ensures Kept(records + [op], now) == Kept(records, now) + if GuardFires(op, now) then [] else [op]
  {
    assert (records + [op])[..|records|] == records;
    assert Kept(records, now) + [] == Kept(records, now);
  }

  lemma OneWrite(v: T.View, w: T.Write)
    ensures T.RunWrites(v, [w]) == T.ApplyWrite(v, w)
  {
    NextWrite(v, [], w);
  }

  lemma NextWrite(v: T.View, ws: seq<T.Write>, w: T.Write)
    ensures T.RunWrites(v, ws + [w]) == T.ApplyWrite(T.RunWrites(v, ws), w)
  {
    assert (ws + [w])[..|ws|] == ws;
  }

  function DeleteRecords(keys: seq<Key>): seq<WalEntry> {
    if keys == [] then [] else DeleteRecords(keys[..|keys| - 1]) + [LogDelete(keys[|keys| - 1])]
  }

  function DeleteMessages(keys: seq<Key>): seq<T.Write> {
    if keys == [] then [] else DeleteMessages(keys[..|keys| - 1]) + [T.Del(keys[|keys| - 1])]
  }

  lemma NextDelete(keys: seq<Key>, k: Key)
    ensures DeleteRecords(keys + [k]) == DeleteRecords(keys) + [LogDelete(k)]
    ensures DeleteMessages(keys + [k]) == DeleteMessages(keys) + [T.Del(k)]
  {
    assert (keys + [k])[..|keys|] == keys;
  }

  /** One record and one message for each. */
  lemma ListLengths(sets: seq<PendingSet>, keys: seq<Key>)
    ensures |SetRecords(sets)| == |SetMessages(sets)| == |sets|
    ensures |DeleteRecords(keys)| == |DeleteMessages(keys)| == |keys|
  {
    SetLengths(sets);
    DeleteLengths(keys);
  }

  lemma {:induction false} SetLengths(sets: seq<PendingSet>)
    ensures |SetRecords(sets)| == |SetMessages(sets)| == |sets|
  {
    if sets != [] {
      SetLengths(sets[..|sets| - 1]);
    }
  }

  lemma {:induction false} DeleteLengths(keys: seq<Key>)
    ensures |DeleteRecords(keys)| == |DeleteMessages(keys)| == |keys|
  {
    if keys != [] {
      DeleteLengths(keys[..|keys| - 1]);
    }
  }

  /** Every pending set carries out a store of the frame and its value is in the volume. */
  ghost predicate Staged(sets: seq<PendingSet>, f: T.Frame, blobs: seq<Blob>) {
    sets == [] || (var p := sets[|sets| - 1];
                   && Staged(sets[..|sets| - 1], f, blobs)
                   && p.addr < |blobs| && blobs[p.addr] == p.value
                   && p.key in f.store && T.FrameItem(f, p.key) == T.Item(p.value, p.expiresAt))
  }

  ghost function KeysOf(sets: seq<PendingSet>): set<Key> {
    if sets == [] then {} else KeysOf(sets[..|sets| - 1]) + {sets[|sets| - 1].key}
  }

  lemma {:induction false} StagedGrow(sets: seq<PendingSet>, f: T.Frame, blobs: seq<Blob>, value: Blob)
    requires Staged(sets, f, blobs)
    ensures Staged(sets, f, blobs + [value])
  {
    if sets != [] {
      StagedGrow(sets[..|sets| - 1], f, blobs, value);
    }
  }

  lemma StageOne(sets: seq<PendingSet>, f: T.Frame, blobs: seq<Blob>, p: PendingSet)
    requires Staged(sets, f, blobs) && p.key in f.store && p.addr == |blobs|
    requires T.FrameItem(f, p.key) == T.Item(p.value, p.expiresAt)
    ensures Staged(sets + [p], f, blobs + [p.value]) && KeysOf(sets + [p]) == KeysOf(sets) + {p.key}
  {
    StagedGrow(sets, f, blobs, p.value);
    assert (sets + [p])[..|sets|] == sets;
  }

  /** Putting staged sets into the index changes the view as their messages say. */
  lemma {:induction false} SetsView(index: map<Key, Slot>, blobs: seq<Blob>, f: T.Frame, sets: seq<PendingSet>)
    requires Backed(index, blobs) && Staged(sets, f, blobs)
    ensures Backed(ApplyAll(index, SetRecords(sets)), blobs)
    ensures ViewOf(ApplyAll(index, SetRecords(sets)), blobs) == T.RunWrites(ViewOf(index, blobs), SetMessages(sets))
  {
    if sets != [] {
      var init, p := sets[..|sets| - 1], sets[|sets| - 1];
      SetsView(index, blobs, f, init);
      ViewPut(ApplyAll(index, SetRecords(init)), blobs, p.key, Slot(p.addr, p.expiresAt));
      NextRecord(index, map[], SetRecords(init), LogSet(p.key, p.addr, p.expiresAt));
      NextWrite(ViewOf(index, blobs), SetMessages(init), T.Put(p.key, p.value, Some(p.expiresAt)));
    }
  }

  /** Replaying the sets and then the deletes gives what the commit did, whatever order the deletes were logged in. */
  lemma CommitRecords(index: map<Key, Slot>, ttl: map<Key, int>, sets: seq<WalEntry>, keys: seq<Key>, deleted: set<Key>)
    requires forall k :: k in keys <==> k in deleted
    ensures ApplyAll(index, sets + DeleteRecords(keys)) == ApplyAll(index, sets) - deleted
    ensures ApplyAllTtl(ttl, sets + DeleteRecords(keys)) == ApplyAllTtl(ttl, sets) - deleted
  {
    DeleteAll(index, ttl, sets, keys);
    assert ToSet(keys) == deleted;
  }

  lemma {:induction false} DeleteAll(index: map<Key, Slot>, ttl: map<Key, int>, sets: seq<WalEntry>, keys: seq<Key>)
    ensures ApplyAll(index, sets + DeleteRecords(keys)) == ApplyAll(index, sets) - ToSet(keys)
    ensures ApplyAllTtl(ttl, sets + DeleteRecords(keys)) == ApplyAllTtl(ttl, sets) - ToSet(keys)
  {
    if keys == [] {
      assert sets + DeleteRecords(keys) == sets;
    } else {
      var init, last := keys[..|keys| - 1], keys[|keys| - 1];
      DeleteAll(index, ttl, sets, init);
      Assoc(sets, DeleteRecords(init), [LogDelete(last)]);
      NextRecord(index, ttl, sets + DeleteRecords(init), LogDelete(last));
      DropTwice(ApplyAll(index, sets), ToSet(init), {last});
      DropTwice(ApplyAllTtl(ttl, sets), ToSet(init), {last});
    }
  }

  lemma DropTwice<A, B>(m: map<A, B>, a: set<A>, b: set<A>)
    ensures m - a - b == m - (a + b)
  {
  }

  ghost function ToSet(keys: seq<Key>): (s: set<Key>)
    ensures forall k :: k in s <==> k in keys
  {
    if keys == [] then {} else ToSet(keys[..|keys| - 1]) + {keys[|keys| - 1]}
  }

  lemma {:induction false} DeleteEffect(keys: seq<Key>, k: Key)
    ensures T.WriteEffect(DeleteMessages(keys), k) == if k in keys then T.Gone else T.Keep
  {
    if keys != [] {
      DeleteEffect(keys[..|keys| - 1], k);
    }
  }

  lemma {:induction false} SetEffect(sets: seq<PendingSet>, f: T.Frame, blobs: seq<Blob>, k: Key)
    requires Staged(sets, f, blobs)
    ensures k in KeysOf(sets) ==> k in f.store
    ensures T.WriteEffect(SetMessages(sets), k) == if k in KeysOf(sets) then T.Becomes(T.FrameItem(f, k)) else T.Keep
  {
    if sets != [] {
      SetEffect(sets[..|sets| - 1], f, blobs, k);
    }
  }

  /** The messages of a commit mean the frame. */
  lemma CommitMessages(v: T.View, f: T.Frame, blobs: seq<Blob>, sets: seq<PendingSet>, keys: seq<Key>)
    requires T.WellFormed(f) && Staged(sets, f, blobs) && KeysOf(sets) == f.store.Keys
    requires forall k :: k in keys <==> k in f.deleted
    ensures T.RunWrites(v, SetMessages(sets) + DeleteMessages(keys)) == T.ApplyFrame(v, f)
    ensures T.RunWrites(v, SetMessages(sets)) - f.deleted == T.ApplyFrame(v, f)
  {
    var ws := SetMessages(sets) + DeleteMessages(keys);
    forall k ensures T.FrameEffect(f, k) == T.WriteEffect(ws, k) {
      SetEffect(sets, f, blobs, k);
      DeleteEffect(keys, k);
      T.WriteEffectConcat(SetMessages(sets), DeleteMessages(keys), k);
    }
    T.ApplyFrameRuns(v, f, ws);
    var u := T.RunWrites(v, SetMessages(sets));
    forall k ensures T.Lookup(T.ApplyFrame(v, f), k) == T.Lookup(u - f.deleted, k) {
      T.RunWritesAt(v, SetMessages(sets), k);
      SetEffect(sets, f, blobs, k);
    }
    T.SameLookups(T.ApplyFrame(v, f), u - f.deleted);
  }

  /** Index, cache, log and stream after a root commit, in one place. */
  lemma CommitEffect(index: map<Key, Slot>, ttl: map<Key, int>, blobs: seq<Blob>, f: T.Frame, sets: seq<PendingSet>,
                     keys: seq<Key>)
    requires Backed(index, blobs) && T.WellFormed(f) && Staged(sets, f, blobs) && KeysOf(sets) == f.store.Keys
    requires forall k :: k in keys <==> k in f.deleted
    ensures var index' := ApplyAll(index, SetRecords(sets)) - f.deleted;
            && Backed(index', blobs)
            && ViewOf(index', blobs) == T.ApplyFrame(ViewOf(index, blobs), f)
            && index' == ApplyAll(index, SetRecords(sets) + DeleteRecords(keys))
    ensures ApplyAllTtl(ttl, SetRecords(sets)) - f.deleted == ApplyAllTtl(ttl, SetRecords(sets) + DeleteRecords(keys))
    ensures T.ApplyFrame(ViewOf(index, blobs), f)
            == T.RunWrites(ViewOf(index, blobs), SetMessages(sets) + DeleteMessages(keys))
  {
    SetsView(index, blobs, f, sets);
    ViewDrop(ApplyAll(index, SetRecords(sets)), blobs, f.deleted);
    CommitRecords(index, ttl, SetRecords(sets), keys, f.deleted);
    CommitMessages(ViewOf(index, blobs), f, blobs, sets, keys);
  }
}
