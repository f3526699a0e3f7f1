/**
 The persistent hash index: the file is real bytes, the bucket table an array, and `log` the ghost record of
 every entry ever published. All answers are stated against `Contents(log)`, a plain map.
 */
module HashIndex {
  import opened Bytes
  import opened Expiry
  import opened EntryCodec
  import opened IndexLog
  import opened LogScan
  import opened BucketSizing

  const FOR_EACH_THRESHOLD: nat := 100_000

  datatype Live = Live(key: Key, addr: NeedleAddr, expiresAt: Int64)

  /** The part of a map that is still visible at `now`. */
  function LivePart(m: map<Key, Cell>, now: int): map<Key, Cell> {
    map k | k in m && !Lapsed(m[k].expiresAt, now) :: m[k]
  }

  /** The map a list of scanned entries spells out. */
  function Cells(out: seq<Live>): map<Key, Cell> {
    if out == [] then map[]
    else var l := out[|out| - 1]; Cells(out[..|out| - 1])[l.key := Cell(l.addr, l.expiresAt)]
  }

  /** No key is listed twice. */
  ghost predicate Distinct(out: seq<Live>) {
    out == [] || (Distinct(out[..|out| - 1]) && out[|out| - 1].key !in Cells(out[..|out| - 1]))
  }

  /** `out` lists every live entry of `m` exactly once, and nothing else. */
  ghost predicate Yields(out: seq<Live>, m: map<Key, Cell>, now: int) {
    Distinct(out) && Cells(out) == LivePart(m, now)
  }

  /** As `Yields`, for the keys in `keys` only. */
  ghost predicate YieldsOn(out: seq<Live>, m: map<Key, Cell>, now: int, keys: iset<Key>) {
    Distinct(out) && Cells(out) == map k | k in m && k in keys && !Lapsed(m[k].expiresAt, now) :: m[k]
  }

  lemma YieldOne(out: seq<Live>, m: map<Key, Cell>, now: int, keys: iset<Key>, k: Key)
    requires YieldsOn(out, m, now, keys) && k !in keys
    ensures k in m && !Lapsed(m[k].expiresAt, now) ==>
              YieldsOn(out + [Live(k, m[k].addr, m[k].expiresAt)], m, now, keys + iset{k})
    ensures k !in m || Lapsed(m[k].expiresAt, now) ==> YieldsOn(out, m, now, keys + iset{k})
  {
    if k in m && !Lapsed(m[k].expiresAt, now) {
      var out' := out + [Live(k, m[k].addr, m[k].expiresAt)];
      assert out'[..|out|] == out;
    }
  }

  lemma {:induction false} Count(a: seq<Live>, l: Live)
    requires Distinct(a)
    ensures multiset(a)[l] == if l.key in Cells(a) && Cells(a)[l.key] == Cell(l.addr, l.expiresAt) then 1 else 0
  {
    if a != [] {
      Count(a[..|a| - 1], l);
      assert a == a[..|a| - 1] + [a[|a| - 1]];
    }
  }

  lemma {:induction false} CellsSize(a: seq<Live>)
    requires Distinct(a)
    ensures |Cells(a)| == |a|
  {
    if a != [] {
      CellsSize(a[..|a| - 1]);
    }
  }

  lemma {:induction false} ListedKey(a: seq<Live>, i: nat)
    requires i < |a|
    ensures a[i].key in Cells(a)
  {
    if i < |a| - 1 {
      ListedKey(a[..|a| - 1], i);
    }
  }

  /** A scan calls back with a triple exactly if the map holds it and its stamp, if it has one, has not passed. */
  lemma YieldsIff(out: seq<Live>, m: map<Key, Cell>, now: int, l: Live)
    requires Yields(out, m, now)
    ensures l in out <==> l.key in m && m[l.key] == Cell(l.addr, l.expiresAt) && !(0 < l.expiresAt < now)
  {
    Count(out, l);
    assert l in out <==> l in multiset(out);
  }

  /** Bytes the listed entries take in an index file. */
  function BytesOf(a: seq<Live>): nat {
    if a == [] then 0 else BytesOf(a[..|a| - 1]) + FIXED + |a[|a| - 1].key|
  }

  lemma {:induction false} MoreBytes(a: seq<Live>, i: nat)
    requires i <= |a|
    ensures BytesOf(a[..i]) <= BytesOf(a)
  {
    if i == |a| {
      assert a[..i] == a;
    } else {
      MoreBytes(a[..|a| - 1], i);
      assert a[..|a| - 1][..i] == a[..i];
    }
  }

  /** The live part of the map does not fit an index file of the size compaction chooses. */
  ghost predicate TooLarge(m: map<Key, Cell>, count: nat, now: int) {
    exists live, n :: Yields(live, m, now) && Sized(n, count) && DataBase(n) + BytesOf(live) >= TWO_63
  }

  lemma BeforeFirst(rest: Option<seq<IndexEntry>>)
    ensures Joined([], rest) == rest
  {
    assert rest.Some? ==> [] + rest.value == rest.value;
  }

  /** Whatever order two scans of the same map take, they call back with the same triples, each once. */
  lemma ScansAgree(a: seq<Live>, b: seq<Live>, m: map<Key, Cell>, now: int)
    requires Yields(a, m, now) && Yields(b, m, now)
    ensures multiset(a) == multiset(b)
    ensures forall l :: l in a ==> multiset(a)[l] == 1
  {
    forall l ensures multiset(a)[l] == multiset(b)[l] <= 1 {
      Count(a, l);
      Count(b, l);
    }
  }

  /** The file stands for a log, and the entry count in its header is not above the log's length. */
  ghost predicate Stands(h: Hash, bytes: seq<Byte>, log: seq<Placed>) {
    && HEADER <= |bytes| < TWO_63
    && Represents(h, U(bytes[16..24]), bytes, log) && U(bytes[32..40]) <= |log|
  }

  /** Offsets and counts of such a file are non-negative as signed numbers. */
  lemma CountFits(h: Hash, bytes: seq<Byte>, log: seq<Placed>)
    requires Stands(h, bytes, log)
    ensures ToInt64(U(bytes[24..32])) == DataBase(U(bytes[16..24])) && ToInt64(U(bytes[32..40])) == U(bytes[32..40])
  {
    LogFits(h, U(bytes[16..24]), bytes, log);
  }

  class HashIndex {
    const hash: Hash
    var bucketCount: nat
    var dataBase: int
    var file: seq<Byte>
    var writePos: nat
    var entryCount: int
    var buckets: array<nat>
    ghost var log: seq<Placed>

    ghost predicate Valid()
      reads this, buckets
    {
      && Represents(hash, bucketCount, file, log)
      && dataBase == DataBase(bucketCount)
      && writePos == |file| < TWO_63
      && 0 <= entryCount <= |log| && U(file[32..40]) <= |log|
      && buckets[..] == Heads(hash, bucketCount, log)
    }

    /** No operation of this index was ever interrupted. */
    ghost predicate NeverTorn()
      reads this
    {
      Dense(bucketCount, file, log)
    }

    /** The fields of an index whose bucket table has not been loaded yet. */
    constructor (h: Hash, content: seq<Byte>, n: nat, base: int, count: int, ghost log0: seq<Placed>)
      ensures hash == h && log == log0 && file == content && writePos == |content| && fresh(buckets)
      ensures bucketCount == n && dataBase == base && entryCount == count
    {
      hash, file, writePos, log := h, content, |content|, log0;
      bucketCount, dataBase, entryCount := n, base, count;
      buckets := new nat[0];
    }

    /** `f.ReadAt`: all the bytes asked for, or an error. */
    static method ReadAt(file: seq<Byte>, off: nat, len: nat) returns (r: Option<seq<Byte>>)
      ensures r == if off + len <= |file| then Some(file[off..off + len]) else None
    {
      if off + len > |file| {
        return None;
      }
      return Some(file[off..off + len]);
    }

    /**
     Opens an index file. An empty one is initialised; one left by an earlier run, cleanly closed or not, is taken as it
     is: header and bucket table are read, and appending resumes at the end of the file. It opens exactly when it holds
     a header with the right magic and a bucket table as long as the header says; if it stands for a log, the index does.
     */
    static method OpenFile(h: Hash, bytes: seq<Byte>, wanted: nat, ghost log0: seq<Placed>) returns (r: HashIndex?)
      requires bytes == [] ==> DataBase(wanted) < TWO_63
      ensures r != null <==>
                bytes == [] || (HEADER <= |bytes| && bytes[0..8] == MAGIC && DataBase(U(bytes[16..24])) <= |bytes|)
      ensures r != null ==> fresh(r) && fresh(r.buckets) && r.hash == h
      ensures r != null && bytes == [] ==> r.Valid() && r.NeverTorn() && r.log == [] && r.entryCount == 0
                                           && r.bucketCount == if wanted == 0 then DEFAULT_BUCKETS else wanted
      ensures r != null && bytes != [] ==>
                && r.file == bytes && r.writePos == |bytes| && r.bucketCount == U(bytes[16..24])
                && r.dataBase == ToInt64(U(bytes[24..32])) && r.entryCount == ToInt64(U(bytes[32..40]))
                && r.buckets[..] == Table(r.bucketCount, bytes)
      ensures r != null && bytes != [] && Stands(h, bytes, log0) ==> r.Valid() && r.log == log0
    {
      if bytes == [] {
        r := Create(h, if wanted == 0 then DEFAULT_BUCKETS else wanted);
        return;
      }
      var hdr := ReadAt(bytes, 0, HEADER);
      if hdr.None? || hdr.value[0..8] != MAGIC {
        return null;
      }
      HeaderSlices(bytes);
      var n := U(hdr.value[16..24]);
      r := new HashIndex(h, bytes, n, ToInt64(U(hdr.value[24..32])), ToInt64(U(hdr.value[32..40])), log0);
      var ok := r.LoadBuckets();
      if !ok {
        return null;
      }
      if Stands(h, bytes, log0) {
        CountFits(h, bytes, log0);
      }
    }

    static method Create(h: Hash, n: nat) returns (r: HashIndex)
      requires 0 < n && DataBase(n) < TWO_63
      ensures fresh(r) && fresh(r.buckets) && r.hash == h && r.bucketCount == n
      ensures r.Valid() && r.NeverTorn() && r.log == [] && r.entryCount == 0
    {
      InitialRepresents(h, n);
      HeaderFields(n, DataBase(n), 0, seq(8 * n, _ => 0));
      r := new HashIndex(h, InitialFile(n), n, DataBase(n), 0, []);
      var ok := r.LoadBuckets();
    }

    /** Copies the on-disk bucket table into memory; fails when the file is too short for it. */
    method LoadBuckets() returns (ok: bool)
      modifies this`buckets
      ensures ok <==> DataBase(bucketCount) <= |file|
      ensures ok ==> fresh(buckets) && buckets[..] == Table(bucketCount, file)
    {
      buckets := new nat[bucketCount];
      var buf := ReadAt(file, HEADER, bucketCount * 8);
      if buf.None? {
        return false;
      }
      for i := 0 to bucketCount
        invariant buckets.Length == bucketCount && fresh(buckets)
        invariant forall s :: 0 <= s < i ==> buckets[s] == TableEntry(bucketCount, file, s)
      {
        SliceOfSlice(file, HEADER, HEADER + bucketCount * 8, i * 8, i * 8 + 8);
        buckets[i] := U(buf.value[i * 8..i * 8 + 8]);
      }
      ok := true;
    }

    /** Walks the chain of the key's slot, newest entry first. */
    method Get(key: Key) returns (r: Option<Cell>)
      requires Valid()
      ensures r == Find(Contents(log), key)
    {
      var slot := Slot(hash, bucketCount, key);
      var off := buckets[slot];
      ghost var rest := log;
      while off != 0
        invariant Chained(hash, bucketCount, file, rest)
        invariant off == Head(hash, bucketCount, rest, slot)
        invariant Find(Contents(log), key) == Find(Contents(rest), key)
        decreases |rest|
      {
        ghost var j := ChainStep(hash, bucketCount, file, rest, slot);
        var d := ReadEntryAt(file, off);
        var e := d.value.entry;
        if e.key == key {
          return if e.deleted then None else Some(Cell(e.addr, e.expiresAt));
        }
        off := e.next;
        rest := rest[..j];
      }
      ChainEnd(hash, bucketCount, file, rest, slot);
      return None;
    }

    /** The three writes of an update: entry bytes first, then the in-memory bucket, then the bucket on disk. */
    method WriteAndPublish(e: IndexEntry)
      requires bucketCount > 0 && buckets.Length == bucketCount && DataBase(bucketCount) <= |file| == writePos
      modifies this`file, this`writePos, buckets
      ensures file == Updated(hash, bucketCount, old(file), Placed(old(writePos), e))
      ensures writePos == |file| == old(writePos) + EncodedSize(e)
      ensures buckets[..] == old(buckets[..])[Slot(hash, bucketCount, e.key) := old(writePos)]
    {
      var slot, newOff := Slot(hash, bucketCount, e.key), writePos;
      var pooled := new Byte[256](_ => 0);
      var buf, need := EncodeIndexEntry(pooled, e);
      file := WriteAt(file, newOff, buf[..need]);
      writePos := writePos + need;
      buckets[slot] := newOff;
      file := WriteAt(file, SlotOffset(slot), LittleEndian(newOff, 8));
    }

    /** The entry an update adds points at the head of its slot. */
    method NewEntry(key: Key, addr: NeedleAddr, expiresAt: Int64, deleted: bool) returns (e: IndexEntry)
      requires Valid()
      ensures e.key == key && e.addr == addr && e.expiresAt == expiresAt && e.deleted == deleted
      ensures e.next == Head(hash, bucketCount, log, Slot(hash, bucketCount, key))
    {
      var slot := Slot(hash, bucketCount, key);
      HeadFits(hash, bucketCount, file, log, slot);
      e := IndexEntry(buckets[slot], key, addr, expiresAt, deleted);
    }

    /** Appends an entry and makes it the head of its slot; fails, changing nothing, when the file cannot grow that far. */
    method Prepend(key: Key, addr: NeedleAddr, expiresAt: Int64, deleted: bool) returns (ok: bool)
      requires Valid() && |key| < TWO_16
      modifies this`file, this`writePos, this`log, buckets
      ensures Valid()
      ensures ok <==> old(writePos) + FIXED + |key| < TWO_63
      ensures !ok ==> log == old(log) && file == old(file)
      ensures ok ==> writePos == old(writePos) + FIXED + |key|
      ensures ok ==> |log| == |old(log)| + 1 && log[..|old(log)|] == old(log)
      ensures ok ==> var e := log[|old(log)|].entry;
                     e.key == key && e.addr == addr && e.expiresAt == expiresAt && e.deleted == deleted
      ensures ok ==> Contents(log) == Update(old(Contents(log)), log[|old(log)|].entry)
      ensures old(NeverTorn()) ==> NeverTorn()
    {
      if writePos + FIXED + |key| >= TWO_63 {
        return false;
      }
      ok := true;
      var e := NewEntry(key, addr, expiresAt, deleted);
      Join(e);
    }

    /** Carries out the update of a key that fits the length field, and records it. */
    method Join(e: IndexEntry)
      requires Valid() && |e.key| < TWO_16 && writePos + EncodedSize(e) < TWO_63
      requires e.next == Head(hash, bucketCount, log, Slot(hash, bucketCount, e.key))
      modifies this`file, this`writePos, this`log, buckets
      ensures Valid() && writePos == old(writePos) + EncodedSize(e)
      ensures |log| == |old(log)| + 1 && log[..|old(log)|] == old(log) && log[|old(log)|].entry == e
      ensures Contents(log) == Update(old(Contents(log)), e)
      ensures old(NeverTorn()) ==> NeverTorn()
    {
      ghost var p := Placed(writePos, e);
      ghost var log' := log + [p];
      AppendAndPublish(hash, bucketCount, file, log, p);
      assert log'[..|log|] == log && log'[|log|] == p;
      WriteAndPublish(e);
      assert Represents(hash, bucketCount, file, log') && file[32..40] == old(file)[32..40];
      assert buckets[..] == Heads(hash, bucketCount, log');
      log := log';
    }

    /** A key that does not fit the length field is written all the same, and lost: no lookup finds it. */
    method PrependLong(key: Key, addr: NeedleAddr, expiresAt: Int64, deleted: bool) returns (ok: bool)
      requires Valid() && |key| >= TWO_16
      modifies this`file, this`writePos, buckets
      ensures ok <==> old(writePos) + FIXED + |key| < TWO_63
      ensures !ok ==> Valid() && file == old(file)
      ensures ok ==> writePos == |file| == old(writePos) + FIXED + |key| && DataBase(bucketCount) <= |file|
      ensures ok ==> DiskGet(hash, bucketCount, file, key) == None
      ensures ok ==> Shadowed(hash, bucketCount, file, old(writePos), old(Contents(log)), key)
    {
      if writePos + FIXED + |key| >= TWO_63 {
        return false;
      }
      ok := true;
      var e := NewEntry(key, addr, expiresAt, deleted);
      LongKeyIsLost(hash, bucketCount, file, log, Placed(writePos, e));
      LongKeyEffect(hash, bucketCount, file, log, Placed(writePos, e));
      WriteAndPublish(e);
    }

    /** An update of a key under 65536 bytes, which is what the rest of the index relies on. */
    method SetShort(key: Key, addr: NeedleAddr, expiresAt: Int64) returns (ok: bool)
      requires Valid() && |key| < TWO_16
      modifies this, buckets
      ensures Valid() && buckets == old(buckets) && bucketCount == old(bucketCount)
      ensures Contents(log) == if ok then old(Contents(log))[key := Cell(addr, expiresAt)] else old(Contents(log))
      ensures ok <==> old(writePos) + FIXED + |key| < TWO_63
      ensures writePos == old(writePos) + if ok then FIXED + |key| else 0
      ensures entryCount == old(entryCount) + if ok then 1 else 0
      ensures old(NeverTorn()) ==> NeverTorn()
    {
      ok := Prepend(key, addr, expiresAt, false);
      if ok {
        entryCount := entryCount + 1;
      }
    }

    method Set(key: Key, addr: NeedleAddr, expiresAt: Int64) returns (ok: bool)
      requires Valid()
      modifies this, buckets
      ensures buckets == old(buckets) && bucketCount == old(bucketCount)
      ensures ok <==> old(writePos) + FIXED + |key| < TWO_63
      ensures !ok ==> Valid() && Contents(log) == old(Contents(log)) && entryCount == old(entryCount)
      ensures ok ==> entryCount == old(entryCount) + 1
      ensures ok && |key| < TWO_16 ==> Valid() && Contents(log) == old(Contents(log))[key := Cell(addr, expiresAt)]
      ensures ok && |key| >= TWO_16 ==> DataBase(bucketCount) <= |file| && DiskGet(hash, bucketCount, file, key) == None
      ensures ok && |key| >= TWO_16 ==> Shadowed(hash, bucketCount, file, old(writePos), old(Contents(log)), key)
      ensures |key| < TWO_16 && old(NeverTorn()) ==> NeverTorn()
    {
      if |key| < TWO_16 {
        ok := SetShort(key, addr, expiresAt);
      } else {
        ok := PrependLong(key, addr, expiresAt, false);
        if ok {
          entryCount := entryCount + 1;
        }
      }
    }

    /** A deletion of a key under 65536 bytes. */
    method DeleteShort(key: Key) returns (ok: bool)
      requires Valid() && |key| < TWO_16
      modifies this, buckets
      ensures Valid() && buckets == old(buckets) && bucketCount == old(bucketCount)
      ensures Contents(log) == if ok then old(Contents(log)) - {key} else old(Contents(log))
      ensures ok <==> old(writePos) + FIXED + |key| < TWO_63
      ensures entryCount == if ok && old(entryCount) > 0 then old(entryCount) - 1 else old(entryCount)
      ensures old(NeverTorn()) ==> NeverTorn()
    {
      ok := Prepend(key, NO_ADDR, 0, true);
      if ok && entryCount > 0 {
        entryCount := entryCount - 1;
      }
    }

    method Delete(key: Key) returns (ok: bool)
      requires Valid()
      modifies this, buckets
      ensures buckets == old(buckets) && bucketCount == old(bucketCount)
      ensures ok <==> old(writePos) + FIXED + |key| < TWO_63
      ensures !ok ==> Valid() && Contents(log) == old(Contents(log))
      ensures entryCount == if ok && old(entryCount) > 0 then old(entryCount) - 1 else old(entryCount)
      ensures ok && |key| < TWO_16 ==> Valid() && Contents(log) == old(Contents(log)) - {key}
      ensures ok && |key| >= TWO_16 ==> DataBase(bucketCount) <= |file| && DiskGet(hash, bucketCount, file, key) == None
      ensures ok && |key| >= TWO_16 ==> Shadowed(hash, bucketCount, file, old(writePos), old(Contents(log)), key)
      ensures |key| < TWO_16 && old(NeverTorn()) ==> NeverTorn()
    {
      if |key| < TWO_16 {
        ok := DeleteShort(key);
      } else {
        ok := PrependLong(key, NO_ADDR, 0, true);
        if ok && entryCount > 0 {
          entryCount := entryCount - 1;
        }
      }
    }

    // ---- Full scans ----

    /** What the linear scan has collected agrees with the map of the entries it has passed. */
    static ghost predicate Collected(latest: map<Key, IndexEntry>, m: map<Key, Cell>) {
      forall k :: Find(m, k) ==
                  if k in latest && !latest[k].deleted then Some(Cell(latest[k].addr, latest[k].expiresAt)) else None
    }

    /**
     Small-index strategy: one linear pass in which later entries win, then the survivors in any order. Fails when a
     read fails, which takes an interrupted append.
     */
    method ForEachSmall(now: int) returns (ok: bool, out: seq<Live>)
      requires Valid()
      ensures ok <==> SpelledBy(file, bucketCount).Some?
      ensures ok ==> Yields(out, SpelledBy(file, bucketCount).value, now)
    {
      var latest;
      ghost var read := DecoderOf(file);
      ReaderDecodes(file, |file|);
      ok, latest := Latest(file, dataBase, read);
      out := [];
      if ok {
        out := YieldLatest(latest, now, Spelled(read, |file|, dataBase).value);
      }
    }

    /** The newest entry of every key, by a pass over the file from `base` to its end. */
    static method Latest(file: seq<Byte>, base: nat, ghost read: Decoder) returns (ok: bool, latest: map<Key, IndexEntry>)
      requires Decodes(read, file, |file|)
      ensures ok <==> Spelled(read, |file|, base).Some?
      ensures ok ==> Collected(latest, Spelled(read, |file|, base).value)
    {
      latest := map[];
      var pos := base;
      ghost var es := [];
      BeforeFirst(Scan(read, |file|, pos));
      while pos < |file|
        invariant Joined(es, Scan(read, |file|, pos)) == Scan(read, |file|, base)
        invariant Collected(latest, MapOf(es))
        decreases |file| - pos
      {
        ScanStep(read, |file|, pos, es);
        var d := ReadThrough(file, pos, read);
        if d.None? {
          return false, latest;
        }
        latest := latest[d.value.entry.key := d.value.entry];
        pos := pos + d.value.size;
        es := es + [d.value.entry];
        assert es[..|es| - 1] + [d.value.entry] == es;
      }
      assert es + [] == es;
      ok := true;
    }

    static method ReadThrough(file: seq<Byte>, pos: nat, ghost read: Decoder) returns (d: Option<Decoded>)
      requires Decodes(read, file, |file|) && pos <= |file|
      ensures d == read(pos)
    {
      d := ReadEntryAt(file, pos);
      DecodesAt(read, file, |file|, pos);
    }

    static method YieldLatest(latest: map<Key, IndexEntry>, now: int, ghost m: map<Key, Cell>) returns (out: seq<Live>)
      requires Collected(latest, m)
      ensures Yields(out, m, now)
    {
      var todo := latest.Keys;
      out := [];
      ghost var done: iset<Key> := iset k: Key | k !in latest;
      while todo != {}
        invariant todo <= latest.Keys
        invariant forall k :: k in done <==> k !in todo
        invariant YieldsOn(out, m, now, done)
        decreases todo
      {
        var k :| k in todo;
        var e := latest[k];
        YieldOne(out, m, now, done, k);
        assert Find(m, k) == if !e.deleted then Some(Cell(e.addr, e.expiresAt)) else None;
        if !e.deleted && !Lapsed(e.expiresAt, now) {
          out := out + [Live(k, e.addr, e.expiresAt)];
        }
        todo := todo - {k};
        done := done + iset{k};
      }
    }

    /** Large-index strategy: every chain from its head, the first occurrence of a key being its newest. */
    method ForEachLarge(now: int) returns (out: seq<Live>)
      requires Valid()
      ensures Yields(out, Contents(log), now)
    {
      out := [];
      for slot := 0 to bucketCount
        invariant YieldsOn(out, Contents(log), now, iset k: Key | Slot(hash, bucketCount, k) < slot)
      {
        out := YieldChain(slot, now, out);
      }
    }

    /**
     Midway down the chain of `slot`, with the entries of `rest` still ahead: the keys of earlier slots and the keys
     seen so far are dealt with; the others mean in `rest` what they mean in the whole log.
     */
    static ghost predicate Midway(h: Hash, n: nat, log: seq<Placed>, rest: seq<Placed>, slot: nat, seen: seq<Key>,
                                  out: seq<Live>, now: int)
      requires n > 0
    {
      && (forall k :: k in seen ==> Slot(h, n, k) == slot)
      && (forall k :: Slot(h, n, k) == slot && k !in seen ==> Find(Contents(log), k) == Find(Contents(rest), k))
      && YieldsOn(out, Contents(log), now, iset k: Key | Slot(h, n, k) < slot || k in seen)
    }

    static lemma MidwayStep(h: Hash, n: nat, log: seq<Placed>, rest: seq<Placed>, rest': seq<Placed>, e: IndexEntry,
                            slot: nat, seen: seq<Key>, out: seq<Live>, now: int)
      requires n > 0 && Midway(h, n, log, rest, slot, seen, out, now)
      requires Slot(h, n, e.key) == slot && SameOnSlot(h, n, slot, Contents(rest), Update(Contents(rest'), e))
      ensures e.key in seen ==> Midway(h, n, log, rest', slot, seen, out, now)
      ensures e.key !in seen ==>
                Midway(h, n, log, rest', slot, seen + [e.key],
                       if !e.deleted && !Lapsed(e.expiresAt, now)
                       then out + [Live(e.key, e.addr, e.expiresAt)] else out, now)
    {
      if e.key !in seen {
        var keys := iset k: Key | Slot(h, n, k) < slot || k in seen;
        YieldOne(out, Contents(log), now, keys, e.key);
        assert keys + iset{e.key} == iset k: Key | Slot(h, n, k) < slot || k in seen + [e.key];
      }
    }

    static lemma MidwayEnd(h: Hash, n: nat, log: seq<Placed>, rest: seq<Placed>, slot: nat, seen: seq<Key>,
                           out: seq<Live>, now: int)
      requires n > 0 && Midway(h, n, log, rest, slot, seen, out, now)
      requires SameOnSlot(h, n, slot, Contents(rest), map[])
      ensures YieldsOn(out, Contents(log), now, iset k: Key | Slot(h, n, k) < slot + 1)
    {
      forall k | Slot(h, n, k) == slot && k !in seen ensures k !in Contents(log) {
        assert Find(Contents(log), k) == Find(Contents(rest), k);
      }
    }

    method YieldChain(slot: nat, now: int, before: seq<Live>) returns (out: seq<Live>)
      requires Valid() && slot < bucketCount
      requires YieldsOn(before, Contents(log), now, iset k: Key | Slot(hash, bucketCount, k) < slot)
      ensures YieldsOn(out, Contents(log), now, iset k: Key | Slot(hash, bucketCount, k) < slot + 1)
    {
      out := before;
      var off := buckets[slot];
      var seen: seq<Key> := [];
      ghost var rest := log;
      while off != 0
        invariant Chained(hash, bucketCount, file, rest) && off == Head(hash, bucketCount, rest, slot)
        invariant Midway(hash, bucketCount, log, rest, slot, seen, out, now)
        decreases |rest|
      {
        ghost var j := ChainStep(hash, bucketCount, file, rest, slot);
        var d := ReadEntryAt(file, off);
        var e := d.value.entry;
        MidwayStep(hash, bucketCount, log, rest, rest[..j], e, slot, seen, out, now);
        if e.key !in seen {
          seen := seen + [e.key];
          if !e.deleted && !Lapsed(e.expiresAt, now) {
            out := out + [Live(e.key, e.addr, e.expiresAt)];
          }
        }
        off := e.next;
        rest := rest[..j];
      }
      ChainEnd(hash, bucketCount, file, rest, slot);
      MidwayEnd(hash, bucketCount, log, rest, slot, seen, out, now);
    }

    /** The map a scan goes by: that of the linear pass for a small index, that of the chains for a large one. */
    ghost function Listed(): Option<map<Key, Cell>>
      reads this
    {
      if entryCount >= FOR_EACH_THRESHOLD then Some(Contents(log))
      else SpelledBy(file, bucketCount)
    }

    /** Both strategies go by the published entries, as long as no append was ever interrupted. */
    lemma ListedIsContents()
      requires Valid() && NeverTorn()
      ensures Listed() == Some(Contents(log))
    {
      ReaderDecodes(file, |file|);
      ScanOfLog(hash, bucketCount, file, DecoderOf(file), log);
    }

    lemma ListedKeysShort()
      requires Valid() && Listed().Some?
      ensures forall k :: k in Listed().value ==> |k| < TWO_16
    {
      if entryCount >= FOR_EACH_THRESHOLD {
        LoggedKeysShort(hash, bucketCount, file, log);
      } else {
        ReaderDecodes(file, |file|);
        SpelledKeysShort(DecoderOf(file), file, dataBase);
      }
    }

    method ForEach(now: int) returns (ok: bool, out: seq<Live>)
      requires Valid()
      ensures ok <==> Listed().Some?
      ensures ok ==> Yields(out, Listed().value, now)
      ensures NeverTorn() ==> ok && Yields(out, Contents(log), now)
    {
      if entryCount < FOR_EACH_THRESHOLD {
        ok, out := ForEachSmall(now);
      } else {
        out := ForEachLarge(now);
        ok := true;
      }
      if NeverTorn() {
        ListedIsContents();
      }
    }

    // ---- Compaction ----

    /** Rewrites the header with the current entry count; the file is then what a later open finds. */
    method Close()
      requires Valid()
      modifies this`file
      ensures Valid() && U(file[32..40]) == entryCount
      ensures old(NeverTorn()) ==> NeverTorn()
    {
      LogFits(hash, bucketCount, file, log);
      var hdr := EncodeHeader(bucketCount, dataBase, entryCount);
      HeaderFields(bucketCount, dataBase, entryCount, file[HEADER..]);
      RewriteHeader(hdr);
      file := WriteAt(file, 0, hdr);
    }

    lemma RewriteHeader(hdr: seq<Byte>)
      requires Valid() && |hdr| == HEADER
      requires HeaderOk(bucketCount, hdr + file[HEADER..])
      ensures WriteAt(file, 0, hdr) == hdr + file[HEADER..]
      ensures Represents(hash, bucketCount, hdr + file[HEADER..], log)
    {
      var file' := hdr + file[HEADER..];
      assert WriteAt(file, 0, hdr) == file';
      WriteAtElsewhere(file, 0, hdr, DataBase(bucketCount), |file|);
      ChainedFrame(hash, bucketCount, file, file', log);
      forall s: nat | s < bucketCount ensures Table(bucketCount, file')[s] == Table(bucketCount, file)[s] {
        WriteAtElsewhere(file, 0, hdr, SlotOffset(s), SlotOffset(s) + 8);
      }
    }

    /** Copies the live entries into an empty index; stops at the first append that fails. */
    method CopyLive(live: seq<Live>) returns (ok: bool)
      requires Valid() && NeverTorn() && log == [] && entryCount == 0
      requires forall k :: k in Cells(live) ==> |k| < TWO_16
      modifies this, buckets
      ensures Valid() && NeverTorn() && buckets == old(buckets) && bucketCount == old(bucketCount)
      ensures ok ==> Contents(log) == Cells(live) && entryCount == |live|
      ensures ok <==> DataBase(bucketCount) + BytesOf(live) < TWO_63
    {
      for i := 0 to |live|
        invariant writePos == DataBase(bucketCount) + BytesOf(live[..i])
        invariant Valid() && NeverTorn() && buckets == old(buckets) && bucketCount == old(bucketCount)
        invariant Contents(log) == Cells(live[..i]) && entryCount == i
      {
        ListedKey(live, i);
        ok := SetShort(live[i].key, live[i].addr, live[i].expiresAt);
        assert live[..i + 1][..i] == live[..i];
        if !ok {
          MoreBytes(live, i + 1);
          return;
        }
      }
      assert live[..|live|] == live;
      ok := true;
    }

    /**
     Rewrites the index without tombstones, stale versions and entries expired at `now`, into a bucket table sized
     for the entry count. Fails, leaving the index as it was, when the scan fails or the new file would be too large.
     */
    method Compact(now: int) returns (ok: bool)
      requires Valid()
      modifies this
      ensures Valid()
      ensures !ok ==> file == old(file) && log == old(log) && bucketCount == old(bucketCount)
      ensures !ok ==> old(Listed()).None? || TooLarge(old(Listed()).value, old(entryCount), now)
      ensures ok ==> NeverTorn() && Sized(bucketCount, old(entryCount))
      ensures ok ==> old(Listed()).Some? && Contents(log) == LivePart(old(Listed()).value, now)
      ensures ok ==> entryCount == |Contents(log)|
      ensures ok ==> forall k :: k in Contents(log) <==>
                       k in old(Listed()).value && !(0 < old(Listed()).value[k].expiresAt < now)
      ensures ok && old(NeverTorn()) ==> Contents(log) == LivePart(old(Contents(log)), now)
    {
      var newBuckets := ChooseBuckets();
      var live;
      ok, live := ForEach(now);
      if ok {
        ListedKeysShort();
        CellsSize(live);
        if NeverTorn() {
          ListedIsContents();
        }
        var newIndex;
        ok, newIndex := WriteFresh(hash, newBuckets, live);
        if ok {
          Adopt(newIndex);
        }
      }
    }

    /** The size of the new table. The entry count is far from the values for which doubling it wraps. */
    method ChooseBuckets() returns (n: nat)
      requires Valid()
      ensures Sized(n, entryCount) && 0 < n && DataBase(n) < TWO_63
    {
      CountBelow();
      n := BucketsFor(entryCount);
    }

    lemma CountBelow()
      requires Valid()
      ensures 0 <= entryCount < 0x400_0000_0000_0000
    {
      LogFits(hash, bucketCount, file, log);
    }

    /** A new index file that holds just the given entries, closed. */
    static method WriteFresh(h: Hash, newBuckets: nat, live: seq<Live>) returns (ok: bool, newIndex: HashIndex)
      requires 0 < newBuckets && DataBase(newBuckets) < TWO_63
      requires forall k :: k in Cells(live) ==> |k| < TWO_16
      ensures fresh(newIndex) && newIndex.Valid() && newIndex.NeverTorn() && newIndex.hash == h
      ensures newIndex.bucketCount == newBuckets
      ensures ok ==> Contents(newIndex.log) == Cells(live) && newIndex.entryCount == |live|
      ensures ok <==> DataBase(newBuckets) + BytesOf(live) < TWO_63
    {
      newIndex := Create(h, newBuckets);
      ok := newIndex.CopyLive(live);
      newIndex.Close();
    }

    /** Replaces this index by another one's file, reloading all in-memory state. */
    method Adopt(other: HashIndex)
      requires other.Valid() && other != this && other.hash == hash
      modifies this
      ensures Valid() && log == other.log && file == other.file && (other.NeverTorn() ==> NeverTorn())
      ensures bucketCount == other.bucketCount && entryCount == other.entryCount
    {
      file, bucketCount, dataBase := other.file, other.bucketCount, DataBase(other.bucketCount);
      writePos, entryCount, log := |other.file|, other.entryCount, other.log;
      var ok := LoadBuckets();
    }
  }
}
