/**
 The meaning of a hash-index file. A file stands for a log of entries: the bucket table points at the newest
 entry of every slot and each entry points at the one before it. The log may have gaps (bytes an interrupted
 append left behind); nothing in this module needs it to be dense.
 */
module IndexLog {
  import opened Bytes
  import opened EntryCodec

  /** The hash is any function of the key; no property depends on its values. */
  type Hash = Key -> nat

  datatype Cell = Cell(addr: NeedleAddr, expiresAt: Int64)

  datatype Placed = Placed(off: nat, entry: IndexEntry)

  const HEADER: nat := 64

  /** "BRISEHDX" */
  const MAGIC: seq<Byte> := [66, 82, 73, 83, 69, 72, 68, 88]

  function End(p: Placed): nat { p.off + EncodedSize(p.entry) }

  function Slot(h: Hash, n: nat, key: Key): (s: nat)
    requires n > 0
    ensures s < n
  {
    h(key) % n
  }

  /** Two keys share a slot exactly if their hashes differ by a multiple of the number of slots. */
  lemma SameSlotIff(h: Hash, n: nat, a: Key, b: Key)
    requires n > 0
    ensures Slot(h, n, a) == Slot(h, n, b) <==> (h(a) - h(b)) % n == 0
  {
    var x, y := h(a), h(b);
    assert x == n * (x / n) + x % n && y == n * (y / n) + y % n;
    var d: int := x % n - y % n;
    assert x - y == n * (x / n - y / n) + d;
    ModOfMultiple(x / n - y / n, n, d);
  }

  lemma ModOfMultiple(q: int, n: int, d: int)
    requires n > 0 && -n < d < n
    ensures (n * q + d) % n == 0 <==> d == 0
  {
    var v := n * q + d;
    var p := v / n;
    assert v == n * p + v % n;
    assert n * (p - q) == d - v % n;
    MultipleOutside(n, p - q);
  }

  function DataBase(n: nat): nat { HEADER + 8 * n }

  function SlotOffset(s: nat): nat { HEADER + 8 * s }

  /** The effect of one entry on the key-to-address map. */
  function Update(m: map<Key, Cell>, e: IndexEntry): map<Key, Cell> {
    if e.deleted then m - {e.key} else m[e.key := Cell(e.addr, e.expiresAt)]
  }

  /** The abstract value of a log: a plain map, later entries winning. */
  function Contents(log: seq<Placed>): map<Key, Cell> {
    if log == [] then map[] else Update(Contents(log[..|log| - 1]), log[|log| - 1].entry)
  }

  function Find(m: map<Key, Cell>, key: Key): Option<Cell> {
    if key in m then Some(m[key]) else None
  }

  /** Offset of the newest entry of a slot, 0 when the slot is empty. */
  function Head(h: Hash, n: nat, log: seq<Placed>, slot: nat): nat
    requires n > 0
  {
    if log == [] then 0
    else if Slot(h, n, log[|log| - 1].entry.key) == slot then log[|log| - 1].off
    else Head(h, n, log[..|log| - 1], slot)
  }

  datatype Header = Header(magic: seq<Byte>, bucketCount: nat, dataBase: nat)

  function ParseHeader(file: seq<Byte>): Header
    requires HEADER <= |file|
  {
    Header(file[0..8], U(file[16..24]), U(file[24..32]))
  }

  ghost predicate HeaderOk(n: nat, file: seq<Byte>) {
    0 < n && DataBase(n) <= |file| && ParseHeader(file) == Header(MAGIC, n, DataBase(n))
  }

  /** The entry's bytes lie in the data region of the file. */
  ghost predicate InFile(n: nat, file: seq<Byte>, p: Placed) {
    && |p.entry.key| < TWO_16
    && DataBase(n) <= p.off < TWO_63
    && End(p) <= |file|
    && file[p.off..End(p)] == Encode(p.entry)
  }

  /** End of the last entry. */
  function LogEnd(n: nat, log: seq<Placed>): nat {
    if log == [] then DataBase(n) else End(log[|log| - 1])
  }

  /** The entry lies in the file behind the whole log and points at the head of its slot. */
  ghost predicate Ready(h: Hash, n: nat, file: seq<Byte>, log: seq<Placed>, p: Placed)
    requires n > 0
  {
    && InFile(n, file, p)
    && LogEnd(n, log) <= p.off
    && p.entry.next == Head(h, n, log, Slot(h, n, p.entry.key))
  }

  /** Every entry was ready when it joined the log. */
  ghost predicate Chained(h: Hash, n: nat, file: seq<Byte>, log: seq<Placed>)
    requires n > 0
  {
    log == [] || (Chained(h, n, file, log[..|log| - 1]) && Ready(h, n, file, log[..|log| - 1], log[|log| - 1]))
  }

  function TableEntry(n: nat, file: seq<Byte>, s: nat): (off: nat)
    requires s < n && DataBase(n) <= |file|
    ensures off < TWO_64
  {
    U(file[SlotOffset(s)..SlotOffset(s) + 8])
  }

  /** The bucket table as the file holds it. */
  function Table(n: nat, file: seq<Byte>): (t: seq<nat>)
    requires DataBase(n) <= |file|
    ensures |t| == n && forall s :: 0 <= s < n ==> t[s] == TableEntry(n, file, s)
  {
    seq(n, s requires 0 <= s < n => TableEntry(n, file, s))
  }

  /** The bucket table a log calls for. */
  function Heads(h: Hash, n: nat, log: seq<Placed>): (t: seq<nat>)
    requires n > 0
    ensures |t| == n && forall s :: 0 <= s < n ==> t[s] == Head(h, n, log, s)
  {
    seq(n, s requires 0 <= s < n => Head(h, n, log, s))
  }

  /** The file holds `log`. */
  ghost predicate Represents(h: Hash, n: nat, file: seq<Byte>, log: seq<Placed>) {
    HeaderOk(n, file) && Chained(h, n, file, log) && Table(n, file) == Heads(h, n, log)
  }

  /** No gap between the entries: what an index reached without a crash looks like. */
  ghost predicate Gapless(n: nat, log: seq<Placed>) {
    log == [] || (Gapless(n, log[..|log| - 1]) && log[|log| - 1].off == LogEnd(n, log[..|log| - 1]))
  }

  ghost predicate Dense(n: nat, file: seq<Byte>, log: seq<Placed>) {
    Gapless(n, log) && |file| == LogEnd(n, log)
  }

  function EncodeHeader(n: Uint64, base: Uint64, count: Uint64): (hdr: seq<Byte>)
    ensures |hdr| == HEADER
  {
    MAGIC + LittleEndian(1, 8) + LittleEndian(n, 8) + LittleEndian(base, 8) + LittleEndian(count, 8)
    + seq(24, _ => 0)
  }

  /** A fresh index file: a header and an all-zero bucket table. */
  function InitialFile(n: nat): (file: seq<Byte>)
    requires DataBase(n) < TWO_63
    ensures |file| == DataBase(n)
  {
    EncodeHeader(n, DataBase(n), 0) + seq(8 * n, _ => 0)
  }

  // ---- Chains ----

  /** On the keys of one slot, two maps agree. */
  ghost predicate SameOnSlot(h: Hash, n: nat, slot: nat, a: map<Key, Cell>, b: map<Key, Cell>)
    requires n > 0
  {
    forall key :: Slot(h, n, key) == slot ==> Find(a, key) == Find(b, key)
  }

  lemma {:induction false} PrefixChained(h: Hash, n: nat, file: seq<Byte>, log: seq<Placed>, i: nat)
    requires n > 0 && Chained(h, n, file, log) && i <= |log|
    ensures Chained(h, n, file, log[..i])
    ensures i < |log| ==> Ready(h, n, file, log[..i], log[i])
  {
    if i < |log| - 1 {
      PrefixChained(h, n, file, log[..|log| - 1], i);
      assert log[..|log| - 1][..i] == log[..i];
    } else if i == |log| {
      assert log[..i] == log;
    }
  }

  lemma {:induction false} HeadBeforeEnd(h: Hash, n: nat, file: seq<Byte>, log: seq<Placed>, slot: nat)
    requires n > 0 && Chained(h, n, file, log)
    ensures Head(h, n, log, slot) < LogEnd(n, log)
  {
    if log != [] {
      HeadBeforeEnd(h, n, file, log[..|log| - 1], slot);
    }
  }

  /**
   Standing at the newest entry of a slot: its bytes decode to entry `j`, which leads on to the newest entry before
   it; on the slot's keys the log means what its first `j` entries mean with that entry applied.
   */
  lemma {:induction false} ChainStep(h: Hash, n: nat, file: seq<Byte>, log: seq<Placed>, slot: nat) returns (j: nat)
    requires n > 0 && Chained(h, n, file, log)
    requires Head(h, n, log, slot) != 0
    ensures j < |log| && Slot(h, n, log[j].entry.key) == slot && Head(h, n, log, slot) < TWO_63
    ensures ReadEntry(file, Head(h, n, log, slot)) == Some(Decoded(log[j].entry, EncodedSize(log[j].entry)))
    ensures log[j].entry.next == Head(h, n, log[..j], slot)
    ensures log[j].entry.next < Head(h, n, log, slot)
    ensures Chained(h, n, file, log[..j])
    ensures SameOnSlot(h, n, slot, Contents(log), Update(Contents(log[..j]), log[j].entry))
  {
    var init, p := log[..|log| - 1], log[|log| - 1];
    if Slot(h, n, p.entry.key) == slot {
      j := |log| - 1;
      ReadsBack(p.entry, file, p.off);
      HeadBeforeEnd(h, n, file, init, slot);
      assert log[..j] == init;
    } else {
      j := ChainStep(h, n, file, init, slot);
      assert init[..j] == log[..j];
      OtherSlot(h, n, slot, Contents(init), p.entry);
    }
  }

  /** An entry of another slot changes nothing on this one. */
  lemma OtherSlot(h: Hash, n: nat, slot: nat, m: map<Key, Cell>, e: IndexEntry)
    requires n > 0 && Slot(h, n, e.key) != slot
    ensures SameOnSlot(h, n, slot, Update(m, e), m)
  {
  }

  lemma {:induction false} ChainEnd(h: Hash, n: nat, file: seq<Byte>, log: seq<Placed>, slot: nat)
    requires n > 0 && Chained(h, n, file, log)
    requires Head(h, n, log, slot) == 0
    ensures SameOnSlot(h, n, slot, Contents(log), map[])
  {
    if log != [] {
      ChainEnd(h, n, file, log[..|log| - 1], slot);
    }
  }

  /** Heads are file offsets, so they fit the 64-bit slots of the table. */
  lemma HeadFits(h: Hash, n: nat, file: seq<Byte>, log: seq<Placed>, slot: nat)
    requires n > 0 && Chained(h, n, file, log)
    ensures Head(h, n, log, slot) < TWO_63
  {
    if Head(h, n, log, slot) != 0 {
      var j := ChainStep(h, n, file, log, slot);
    }
  }

  /** Each entry takes at least its fixed part, so the file bounds the number of entries. */
  lemma {:induction false} LogFits(h: Hash, n: nat, file: seq<Byte>, log: seq<Placed>)
    requires n > 0 && Chained(h, n, file, log) && DataBase(n) <= |file|
    ensures DataBase(n) + FIXED * |log| <= LogEnd(n, log) <= |file|
  {
    if log != [] {
      LogFits(h, n, file, log[..|log| - 1]);
    }
  }

  lemma {:induction false} LoggedKeysShort(h: Hash, n: nat, file: seq<Byte>, log: seq<Placed>)
    requires n > 0 && Chained(h, n, file, log)
    ensures forall k :: k in Contents(log) ==> |k| < TWO_16
  {
    if log != [] {
      LoggedKeysShort(h, n, file, log[..|log| - 1]);
    }
  }

  // ---- How a file changes ----

  /** The chain depends only on the bytes of the data region that existed when it was built. */
  lemma {:induction false} ChainedFrame(h: Hash, n: nat, file: seq<Byte>, file': seq<Byte>, log: seq<Placed>)
    requires n > 0 && Chained(h, n, file, log)
    requires DataBase(n) <= |file| <= |file'|
    requires file'[DataBase(n)..|file|] == file[DataBase(n)..|file|]
    ensures Chained(h, n, file', log)
  {
    if log != [] {
      ChainedFrame(h, n, file, file', log[..|log| - 1]);
      InFileFrame(n, file, file', log[|log| - 1]);
    }
  }

  lemma InFileFrame(n: nat, file: seq<Byte>, file': seq<Byte>, p: Placed)
    requires InFile(n, file, p)
    requires DataBase(n) <= |file| <= |file'|
    requires file'[DataBase(n)..|file|] == file[DataBase(n)..|file|]
    ensures InFile(n, file', p)
  {
    SliceOfEqual(file', file, DataBase(n), |file|, p.off, End(p));
  }

  /** Bytes added at the end of the file change nothing: an append that was cut short is invisible. */
  lemma Grow(h: Hash, n: nat, file: seq<Byte>, extra: seq<Byte>, log: seq<Placed>)
    requires Represents(h, n, file, log)
    ensures Represents(h, n, file + extra, log)
  {
    var file' := file + extra;
    SliceOfPrefix(file, extra, 0, 8);
    SliceOfPrefix(file, extra, 16, 24);
    SliceOfPrefix(file, extra, 24, 32);
    SliceOfPrefix(file, extra, DataBase(n), |file|);
    ChainedFrame(h, n, file, file', log);
    forall s: nat | s < n ensures Table(n, file')[s] == Table(n, file)[s] {
      SliceOfPrefix(file, extra, SlotOffset(s), SlotOffset(s) + 8);
    }
  }

  /** The file once the bucket slot of an entry points at it. */
  function Publish(h: Hash, n: nat, file: seq<Byte>, p: Placed): (file': seq<Byte>)
    requires n > 0 && DataBase(n) <= |file|
    ensures |file'| == |file|
  {
    WriteAt(file, SlotOffset(Slot(h, n, p.entry.key)), LittleEndian(p.off, 8))
  }

  lemma HeadsAppend(h: Hash, n: nat, log: seq<Placed>, p: Placed)
    requires n > 0
    ensures Heads(h, n, log + [p]) == Heads(h, n, log)[Slot(h, n, p.entry.key) := p.off]
  {
    assert (log + [p])[..|log|] == log;
  }

  lemma PublishTable(h: Hash, n: nat, file: seq<Byte>, log: seq<Placed>, p: Placed)
    requires HeaderOk(n, file) && Table(n, file) == Heads(h, n, log) && p.off < TWO_63
    ensures Table(n, Publish(h, n, file, p)) == Heads(h, n, log + [p])
  {
    HeadsAppend(h, n, log, p);
    var s := Slot(h, n, p.entry.key);
    var bs := LittleEndian(p.off, 8);
    var file' := Publish(h, n, file, p);
    assert (log + [p])[..|log|] == log;
    Widths();
    LittleEndianRoundTrip(p.off, 8);
    forall t: nat | t < n ensures Table(n, file')[t] == Heads(h, n, log + [p])[t] {
      if t != s {
        WriteAtElsewhere(file, SlotOffset(s), bs, SlotOffset(t), SlotOffset(t) + 8);
        assert Table(n, file')[t] == Table(n, file)[t];
      }
    }
  }

  lemma PublishElsewhere(h: Hash, n: nat, file: seq<Byte>, p: Placed)
    requires n > 0 && DataBase(n) <= |file|
    ensures Publish(h, n, file, p)[..HEADER] == file[..HEADER]
    ensures Publish(h, n, file, p)[DataBase(n)..|file|] == file[DataBase(n)..|file|]
  {
    var s := Slot(h, n, p.entry.key);
    WriteAtElsewhere(file, SlotOffset(s), LittleEndian(p.off, 8), 0, HEADER);
    WriteAtElsewhere(file, SlotOffset(s), LittleEndian(p.off, 8), DataBase(n), |file|);
  }

  /** Only the first 64 bytes matter to the header. */
  lemma HeaderFrame(n: nat, file: seq<Byte>, file': seq<Byte>)
    requires HeaderOk(n, file) && DataBase(n) <= |file'|
    requires file'[..HEADER] == file[..HEADER]
    ensures HeaderOk(n, file') && file'[32..40] == file[32..40]
  {
    SliceOfSlice(file, 0, HEADER, 0, 8);
    SliceOfSlice(file', 0, HEADER, 0, 8);
    SliceOfSlice(file, 0, HEADER, 16, 24);
    SliceOfSlice(file', 0, HEADER, 16, 24);
    SliceOfSlice(file, 0, HEADER, 24, 32);
    SliceOfSlice(file', 0, HEADER, 24, 32);
    SliceOfSlice(file, 0, HEADER, 32, 40);
    SliceOfSlice(file', 0, HEADER, 32, 40);
  }

  /** Writing the bucket slot makes a ready entry part of the log, and nothing else changes. */
  lemma PublishRepresents(h: Hash, n: nat, file: seq<Byte>, log: seq<Placed>, p: Placed)
    requires Represents(h, n, file, log) && Ready(h, n, file, log, p)
    ensures Represents(h, n, Publish(h, n, file, p), log + [p])
    ensures Contents(log + [p]) == Update(Contents(log), p.entry)
    ensures Heads(h, n, log + [p]) == Heads(h, n, log)[Slot(h, n, p.entry.key) := p.off]
  {
    var file' := Publish(h, n, file, p);
    HeadsAppend(h, n, log, p);
    PublishElsewhere(h, n, file, p);
    HeaderFrame(n, file, file');
    PublishTable(h, n, file, log, p);
    ChainedFrame(h, n, file, file', log);
    InFileFrame(n, file, file', p);
    assert (log + [p])[..|log|] == log;
  }

  /** The file after an update, whatever the length of its key. */
  function Updated(h: Hash, n: nat, file: seq<Byte>, p: Placed): (file': seq<Byte>)
    requires n > 0 && DataBase(n) <= |file| == p.off
  {
    Publish(h, n, WriteAt(file, p.off, Encode(p.entry)), p)
  }

  /** A complete update: the entry is appended at the end of the file, then its bucket slot is written. */
  lemma AppendAndPublish(h: Hash, n: nat, file: seq<Byte>, log: seq<Placed>, p: Placed)
    requires Represents(h, n, file, log)
    requires p.off == |file| < TWO_63 && |p.entry.key| < TWO_16
    requires p.entry.next == Head(h, n, log, Slot(h, n, p.entry.key))
    ensures var file' := Updated(h, n, file, p);
            && Represents(h, n, file', log + [p])
            && |file'| == |file| + EncodedSize(p.entry)
            && file'[32..40] == file[32..40]
            && (Dense(n, file, log) ==> Dense(n, file', log + [p]))
    ensures Contents(log + [p]) == Update(Contents(log), p.entry)
    ensures Heads(h, n, log + [p]) == Heads(h, n, log)[Slot(h, n, p.entry.key) := p.off]
  {
    var appended := WriteAt(file, p.off, Encode(p.entry));
    assert appended == file + Encode(p.entry);
    Grow(h, n, file, Encode(p.entry), log);
    LogFits(h, n, file, log);
    LastPart(file, Encode(p.entry));
    PublishRepresents(h, n, appended, log, p);
    CountStays(h, n, file, Encode(p.entry), p);
    assert (log + [p])[..|log|] == log;
  }

  /** Neither the append nor the bucket write touches the entry count in the header. */
  lemma CountStays(h: Hash, n: nat, file: seq<Byte>, more: seq<Byte>, p: Placed)
    requires n > 0 && DataBase(n) <= |file|
    ensures Publish(h, n, file + more, p)[32..40] == file[32..40]
  {
    var file' := Publish(h, n, file + more, p);
    PublishElsewhere(h, n, file + more, p);
    assert file'[0..HEADER] == file'[..HEADER] && (file + more)[0..HEADER] == (file + more)[..HEADER];
    SliceOfEqual(file', file + more, 0, HEADER, 32, 40);
    SliceOfPrefix(file, more, 32, 40);
  }

  /** What is read off the first 64 bytes is what lies at those positions of the file. */
  lemma HeaderSlices(file: seq<Byte>)
    requires HEADER <= |file|
    ensures file[0..HEADER][0..8] == file[0..8] && file[0..HEADER][16..24] == file[16..24]
    ensures file[0..HEADER][24..32] == file[24..32] && file[0..HEADER][32..40] == file[32..40]
  {
    SliceOfSlice(file, 0, HEADER, 0, 8);
    SliceOfSlice(file, 0, HEADER, 16, 24);
    SliceOfSlice(file, 0, HEADER, 24, 32);
    SliceOfSlice(file, 0, HEADER, 32, 40);
  }

  lemma HeaderFields(n: nat, base: Uint64, count: Uint64, rest: seq<Byte>)
    requires n < TWO_64
    ensures var file := EncodeHeader(n, base, count) + rest;
            file[0..8] == MAGIC && U(file[16..24]) == n && U(file[24..32]) == base && U(file[32..40]) == count
  {
    Widths();
    LittleEndianRoundTrip(n, 8);
    LittleEndianRoundTrip(base, 8);
    LittleEndianRoundTrip(count, 8);
    HeaderParts(MAGIC, LittleEndian(1, 8), LittleEndian(n, 8), LittleEndian(base, 8), LittleEndian(count, 8),
                seq(24, _ => 0), rest);
  }

  lemma HeaderParts(m: seq<Byte>, v: seq<Byte>, n: seq<Byte>, base: seq<Byte>, count: seq<Byte>, pad: seq<Byte>,
                    rest: seq<Byte>)
    requires |m| == |v| == |n| == |base| == |count| == 8
    ensures var file := m + v + n + base + count + pad + rest;
            file[0..8] == m && file[16..24] == n && file[24..32] == base && file[32..40] == count
  {
    var a, b, c, d := m + v, m + v + n, m + v + n + base, m + v + n + base + count;
    FirstForty(d, pad, rest, 0, 8);
    FirstForty(d, pad, rest, 16, 24);
    FirstForty(d, pad, rest, 24, 32);
    FirstForty(d, pad, rest, 32, 40);
    LastPart(c, count);
    SliceOfPrefix(c, count, 0, 8);
    SliceOfPrefix(c, count, 16, 24);
    SliceOfPrefix(c, count, 24, 32);
    LastPart(b, base);
    SliceOfPrefix(b, base, 0, 8);
    SliceOfPrefix(b, base, 16, 24);
    LastPart(a, n);
    SliceOfPrefix(a, n, 0, 8);
    SliceOfPrefix(m, v, 0, 8);
    assert m[0..8] == m;
  }

  lemma FirstForty(d: seq<Byte>, pad: seq<Byte>, rest: seq<Byte>, lo: nat, hi: nat)
    requires lo <= hi <= |d|
    ensures (d + pad + rest)[lo..hi] == d[lo..hi]
  {
    SliceOfPrefix(d, pad, lo, hi);
    SliceOfPrefix(d + pad, rest, lo, hi);
  }

  lemma InitialRepresents(h: Hash, n: nat)
    requires 0 < n && DataBase(n) < TWO_63
    ensures Represents(h, n, InitialFile(n), []) && Dense(n, InitialFile(n), [])
  {
    var file := InitialFile(n);
    HeaderFields(n, DataBase(n), 0, seq(8 * n, _ => 0));
    forall s: nat | s < n ensures Table(n, file)[s] == 0 {
      ZeroBytes(file[SlotOffset(s)..SlotOffset(s) + 8]);
    }
  }

  lemma {:induction false} ZeroBytes(bs: seq<Byte>)
    requires forall i :: 0 <= i < |bs| ==> bs[i] == 0
    ensures FromLittleEndian(bs) == 0
  {
    if bs != [] {
      ZeroBytes(bs[1..]);
    }
  }

  // ---- What the bytes alone say ----

  /** A lookup that knows only the file: follow the chain from `off`. Offsets along a chain always decrease. */
  function DiskWalk(file: seq<Byte>, off: nat, key: Key): Option<Cell>
    decreases off
  {
    if off == 0 then None
    else
      var d := ReadEntry(file, off);
      if d.None? then None
      else
        var e := d.value.entry;
        if e.key == key then (if e.deleted then None else Some(Cell(e.addr, e.expiresAt)))
        else if 0 <= e.next < off then DiskWalk(file, e.next, key)
        else None
  }

  function DiskGet(h: Hash, n: nat, file: seq<Byte>, key: Key): Option<Cell>
    requires 0 < n && DataBase(n) <= |file|
  {
    DiskWalk(file, TableEntry(n, file, Slot(h, n, key)), key)
  }

  lemma {:induction false} DiskWalkFinds(h: Hash, n: nat, file: seq<Byte>, log: seq<Placed>, key: Key)
    requires n > 0 && Chained(h, n, file, log)
    ensures DiskWalk(file, Head(h, n, log, Slot(h, n, key)), key) == Find(Contents(log), key)
    decreases |log|
  {
    var slot := Slot(h, n, key);
    if Head(h, n, log, slot) == 0 {
      ChainEnd(h, n, file, log, slot);
    } else {
      var j := ChainStep(h, n, file, log, slot);
      DiskWalkFinds(h, n, file, log[..j], key);
    }
  }

  /** A file that represents a log answers every lookup as the log's map does. */
  lemma DiskGetFinds(h: Hash, n: nat, file: seq<Byte>, log: seq<Placed>, key: Key)
    requires Represents(h, n, file, log)
    ensures DiskGet(h, n, file, key) == Find(Contents(log), key)
  {
    DiskWalkFinds(h, n, file, log, key);
    assert Table(n, file)[Slot(h, n, key)] == Heads(h, n, log)[Slot(h, n, key)];
  }

  // ---- Keys that do not fit the length field ----

  lemma UpdatedTable(h: Hash, n: nat, file: seq<Byte>, log: seq<Placed>, p: Placed, slot: nat)
    requires Represents(h, n, file, log) && p.off == |file| < TWO_63 && slot < n
    ensures var file' := Updated(h, n, file, p);
            && |file'| == |file| + EncodedSize(p.entry)
            && TableEntry(n, file', slot) == if slot == Slot(h, n, p.entry.key) then p.off else Head(h, n, log, slot)
  {
    var appended := WriteAt(file, p.off, Encode(p.entry));
    assert appended == file + Encode(p.entry);
    Grow(h, n, file, Encode(p.entry), log);
    PublishTable(h, n, appended, log, p);
    assert (log + [p])[..|log|] == log;
    assert Table(n, Publish(h, n, appended, p))[slot] == Heads(h, n, log + [p])[slot];
  }

  lemma UpdatedData(h: Hash, n: nat, file: seq<Byte>, log: seq<Placed>, p: Placed)
    requires Represents(h, n, file, log) && p.off == |file| < TWO_63
    ensures var file' := Updated(h, n, file, p);
            && |file'| == |file| + EncodedSize(p.entry)
            && Chained(h, n, file', log) && file'[p.off..End(p)] == Encode(p.entry)
  {
    var appended := WriteAt(file, p.off, Encode(p.entry));
    assert appended == file + Encode(p.entry);
    Grow(h, n, file, Encode(p.entry), log);
    LastPart(file, Encode(p.entry));
    PublishedData(h, n, appended, log, p);
  }

  /** The bucket write leaves the entries alone. */
  lemma PublishedData(h: Hash, n: nat, appended: seq<Byte>, log: seq<Placed>, p: Placed)
    requires Represents(h, n, appended, log) && DataBase(n) <= p.off && End(p) == |appended|
    ensures var file' := Publish(h, n, appended, p);
            |file'| == |appended| && Chained(h, n, file', log) && file'[p.off..End(p)] == appended[p.off..End(p)]
  {
    var file' := Publish(h, n, appended, p);
    PublishElsewhere(h, n, appended, p);
    ChainedFrame(h, n, appended, file', log);
    SliceOfEqual(file', appended, DataBase(n), |appended|, p.off, End(p));
  }

  /** A lookup passes by an entry with another key. */
  lemma PassesBy(file: seq<Byte>, off: nat, key: Key)
    requires off > 0 && ReadEntry(file, off).Some? && ReadEntry(file, off).value.entry.key != key
    requires 0 <= ReadEntry(file, off).value.entry.next < off
    ensures DiskWalk(file, off, key) == DiskWalk(file, ReadEntry(file, off).value.entry.next, key)
  {
  }

  lemma PassesLong(file: seq<Byte>, p: Placed)
    requires End(p) <= |file| && file[p.off..End(p)] == Encode(p.entry)
    requires |p.entry.key| >= TWO_16 && 0 <= p.entry.next < p.off
    ensures DiskWalk(file, p.off, p.entry.key) == DiskWalk(file, p.entry.next, p.entry.key)
  {
    AnyEntryReads(p.entry, file, p.off);
    PassesBy(file, p.off, p.entry.key);
  }

  /** A lookup of a key of 65536 bytes or more never ends at an entry: what was stored under it is lost. */
  lemma LongKeyIsLost(h: Hash, n: nat, file: seq<Byte>, log: seq<Placed>, p: Placed)
    requires Represents(h, n, file, log) && p.off == |file| < TWO_63 && |p.entry.key| >= TWO_16
    requires p.entry.next == Head(h, n, log, Slot(h, n, p.entry.key))
    ensures DataBase(n) <= |Updated(h, n, file, p)|
    ensures DiskGet(h, n, Updated(h, n, file, p), p.entry.key) == None
  {
    var file' := Updated(h, n, file, p);
    UpdatedTable(h, n, file, log, p, Slot(h, n, p.entry.key));
    UpdatedData(h, n, file, log, p);
    HeadBeforeEnd(h, n, file, log, Slot(h, n, p.entry.key));
    LogFits(h, n, file, log);
    PassesLong(file', p);
    LongKeyAbsent(h, n, file', log, p.entry.key);
  }

  lemma LongKeyAbsent(h: Hash, n: nat, file: seq<Byte>, log: seq<Placed>, key: Key)
    requires n > 0 && Chained(h, n, file, log) && |key| >= TWO_16
    ensures DiskWalk(file, Head(h, n, log, Slot(h, n, key)), key) == None
  {
    DiskWalkFinds(h, n, file, log, key);
    LoggedKeysShort(h, n, file, log);
  }

  /**
   The entry written at `off` for a long key reads as another one, under a shorter key. If that key has the slot of the
   long one, the entry shadows what it held; all other lookups are those of `m`.
   */
  ghost predicate Shadowed(h: Hash, n: nat, file: seq<Byte>, off: nat, m: map<Key, Cell>, long: Key) {
    && 0 < n && DataBase(n) <= |file| && ReadEntry(file, off).Some?
    && var cut := ReadEntry(file, off).value.entry;
    && |cut.key| == |long| % TWO_16
    && forall key :: DiskGet(h, n, file, key) ==
                     if key == cut.key && Slot(h, n, key) == Slot(h, n, long)
                     then (if cut.deleted then None else Some(Cell(cut.addr, cut.expiresAt)))
                     else Find(m, key)
  }

  /** What such an update does to every lookup. */
  lemma LongKeyEffect(h: Hash, n: nat, file: seq<Byte>, log: seq<Placed>, p: Placed)
    requires Represents(h, n, file, log) && p.off == |file| < TWO_63 && |p.entry.key| >= TWO_16
    requires p.entry.next == Head(h, n, log, Slot(h, n, p.entry.key))
    ensures Shadowed(h, n, Updated(h, n, file, p), p.off, Contents(log), p.entry.key)
  {
    var file' := Updated(h, n, file, p);
    CutEntry(h, n, file, log, p);
    var cut := ReadEntry(file', p.off).value.entry;
    forall key
      ensures DiskGet(h, n, file', key) ==
              if key == cut.key && Slot(h, n, key) == Slot(h, n, p.entry.key)
              then (if cut.deleted then None else Some(Cell(cut.addr, cut.expiresAt)))
              else Find(Contents(log), key)
    {
      UpdatedTable(h, n, file, log, p, Slot(h, n, key));
      WalkFromCut(h, n, file', log, p, key);
    }
  }

  /** The entry reads back with its next offset and part of its key, in front of the old entries. */
  lemma CutEntry(h: Hash, n: nat, file: seq<Byte>, log: seq<Placed>, p: Placed)
    requires Represents(h, n, file, log) && p.off == |file| < TWO_63 && |p.entry.key| >= TWO_16
    requires p.entry.next == Head(h, n, log, Slot(h, n, p.entry.key))
    ensures var file' := Updated(h, n, file, p);
            && DataBase(n) <= p.off <= |file'| && Chained(h, n, file', log) && ReadEntry(file', p.off).Some?
            && ReadEntry(file', p.off).value.entry.next == p.entry.next < p.off
            && |ReadEntry(file', p.off).value.entry.key| == |p.entry.key| % TWO_16
  {
    UpdatedData(h, n, file, log, p);
    AnyEntryReads(p.entry, Updated(h, n, file, p), p.off);
    HeadBeforeEnd(h, n, file, log, Slot(h, n, p.entry.key));
    LogFits(h, n, file, log);
  }

  /** A lookup over the file with the cut entry, from wherever the table points. */
  lemma WalkFromCut(h: Hash, n: nat, file: seq<Byte>, log: seq<Placed>, p: Placed, key: Key)
    requires n > 0 && Chained(h, n, file, log) && DataBase(n) <= |file| && p.off > 0 && ReadEntry(file, p.off).Some?
    requires ReadEntry(file, p.off).value.entry.next == p.entry.next < p.off
    requires p.entry.next == Head(h, n, log, Slot(h, n, p.entry.key))
    requires var slot := Slot(h, n, key);
             TableEntry(n, file, slot) == if slot == Slot(h, n, p.entry.key) then p.off else Head(h, n, log, slot)
    ensures var cut := ReadEntry(file, p.off).value.entry;
            DiskGet(h, n, file, key) ==
            if key == cut.key && Slot(h, n, key) == Slot(h, n, p.entry.key)
            then (if cut.deleted then None else Some(Cell(cut.addr, cut.expiresAt)))
            else Find(Contents(log), key)
  {
    DiskWalkFinds(h, n, file, log, key);
    StepsPast(file, p.off, key);
  }

  /** The first step of a lookup: it ends here, or goes on to the next entry. */
  lemma StepsPast(file: seq<Byte>, off: nat, key: Key)
    requires off > 0 && ReadEntry(file, off).Some? && 0 <= ReadEntry(file, off).value.entry.next < off
    ensures var e := ReadEntry(file, off).value.entry;
            DiskWalk(file, off, key) ==
            if key != e.key then DiskWalk(file, e.next, key)
            else if e.deleted then None else Some(Cell(e.addr, e.expiresAt))
  {
  }

  /** A lookup right after an update finds what was stored if and only if the key is under 65536 bytes. */
  lemma StoredKeyFoundIff(h: Hash, n: nat, file: seq<Byte>, log: seq<Placed>, p: Placed)
    requires Represents(h, n, file, log) && p.off == |file| < TWO_63 && !p.entry.deleted
    requires p.entry.next == Head(h, n, log, Slot(h, n, p.entry.key))
    ensures DataBase(n) <= |Updated(h, n, file, p)|
    ensures DiskGet(h, n, Updated(h, n, file, p), p.entry.key) == Some(Cell(p.entry.addr, p.entry.expiresAt))
            <==> |p.entry.key| < TWO_16
  {
    if |p.entry.key| < TWO_16 {
      AppendAndPublish(h, n, file, log, p);
      DiskGetFinds(h, n, Updated(h, n, file, p), log + [p], p.entry.key);
    } else {
      LongKeyIsLost(h, n, file, log, p);
    }
  }
}
