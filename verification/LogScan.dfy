/**
 The linear scan over the data region of an index file: it returns exactly the logged entries when no append was ever
 interrupted, and this module says what it returns when one was.
 */
module LogScan {
  import opened Bytes
  import opened EntryCodec
  import opened IndexLog

  type Decoder = nat -> Option<Decoded>

  /** Decode at `pos`, step by the decoded size, stop at the end of the file; any failed read fails the scan. */
  function Scan(read: Decoder, end: nat, pos: nat): Option<seq<IndexEntry>>
    decreases end - pos
  {
    if pos >= end then Some([])
    else
      var d := read(pos);
      if d.None? then None else Joined([d.value.entry], Scan(read, end, pos + d.value.size))
  }

  function Joined(es: seq<IndexEntry>, rest: Option<seq<IndexEntry>>): Option<seq<IndexEntry>> {
    if rest.None? then None else Some(es + rest.value)
  }

  function DecoderOf(file: seq<Byte>): Decoder { p => ReadEntry(file, p) }

  /** The decoder answers for the file at every position up to `last`. */
  ghost predicate Decodes(read: Decoder, file: seq<Byte>, last: nat) {
    read(last) == ReadEntry(file, last) && (last > 0 ==> Decodes(read, file, last - 1))
  }

  lemma {:induction false} DecodesAt(read: Decoder, file: seq<Byte>, last: nat, pos: nat)
    requires Decodes(read, file, last) && pos <= last
    ensures read(pos) == ReadEntry(file, pos)
  {
    if pos < last {
      DecodesAt(read, file, last - 1, pos);
    }
  }

  lemma {:induction false} ReaderDecodes(file: seq<Byte>, last: nat)
    ensures Decodes(DecoderOf(file), file, last)
  {
    if last > 0 {
      ReaderDecodes(file, last - 1);
    }
  }


  /** The decoder finds the entries one behind the other, from `pos` to `stop`. */
  ghost predicate Finds(read: Decoder, pos: nat, es: seq<IndexEntry>, stop: nat)
    decreases |es|
  {
    if es == [] then pos == stop
    else
      && read(pos) == Some(Decoded(es[0], EncodedSize(es[0])))
      && Finds(read, pos + EncodedSize(es[0]), es[1..], stop)
  }

  /** What the decoder finds is what the scan visits, followed by what it makes of the rest. */
  lemma {:induction false} ScanVisits(read: Decoder, end: nat, pos: nat, es: seq<IndexEntry>, stop: nat)
    requires Finds(read, pos, es, stop) && stop <= end
    ensures pos <= stop
    ensures Scan(read, end, pos) == Joined(es, Scan(read, end, stop))
    decreases |es|
  {
    var rest := Scan(read, end, stop);
    if es == [] {
      assert rest.Some? ==> es + rest.value == rest.value;
    } else {
      ScanVisits(read, end, pos + EncodedSize(es[0]), es[1..], stop);
      assert rest.Some? ==> [es[0]] + (es[1..] + rest.value) == es + rest.value;
    }
  }

  /** One iteration of the scan, with the entries of `done` behind it. */
  lemma ScanStep(read: Decoder, end: nat, pos: nat, done: seq<IndexEntry>)
    requires pos < end
    ensures var d := read(pos);
            if d.None? then Scan(read, end, pos).None?
            else Joined(done, Scan(read, end, pos)) == Joined(done + [d.value.entry], Scan(read, end, pos + d.value.size))
  {
    var d := read(pos);
    if d.Some? {
      var rest := Scan(read, end, pos + d.value.size);
      assert rest.Some? ==> done + ([d.value.entry] + rest.value) == done + [d.value.entry] + rest.value;
    }
  }

  // ---- The entries of an index file ----

  function Entries(log: seq<Placed>): seq<IndexEntry> {
    if log == [] then [] else Entries(log[..|log| - 1]) + [log[|log| - 1].entry]
  }

  /** The map a list of entries spells out, later entries winning. */
  function MapOf(es: seq<IndexEntry>): map<Key, Cell> {
    if es == [] then map[] else Update(MapOf(es[..|es| - 1]), es[|es| - 1])
  }

  lemma {:induction false} MapOfEntries(log: seq<Placed>)
    ensures MapOf(Entries(log)) == Contents(log)
  {
    if log != [] {
      MapOfEntries(log[..|log| - 1]);
      assert Entries(log)[..|Entries(log)| - 1] == Entries(log[..|log| - 1]);
    }
  }

  lemma {:induction false} FindsMore(read: Decoder, pos: nat, es: seq<IndexEntry>, stop: nat, e: IndexEntry)
    requires Finds(read, pos, es, stop) && read(stop) == Some(Decoded(e, EncodedSize(e)))
    ensures Finds(read, pos, es + [e], stop + EncodedSize(e))
    decreases |es|
  {
    if es != [] {
      FindsMore(read, pos + EncodedSize(es[0]), es[1..], stop, e);
      assert (es + [e])[1..] == es[1..] + [e];
    } else {
      assert (es + [e])[1..] == [];
    }
  }

  /** The bytes of the entries lie in the file one behind the other, from `pos` to `stop`. */
  ghost predicate LaidOut(file: seq<Byte>, pos: nat, es: seq<IndexEntry>, stop: nat)
    decreases |es|
  {
    if es == [] then pos == stop
    else
      var e := es[|es| - 1];
      && |e.key| < TWO_16 && pos + EncodedSize(e) <= stop <= |file|
      && file[stop - EncodedSize(e)..stop] == Encode(e)
      && LaidOut(file, pos, es[..|es| - 1], stop - EncodedSize(e))
  }

  /** Only the bytes of the entries matter. */
  lemma {:induction false} LaidOutFrame(file: seq<Byte>, file': seq<Byte>, pos: nat, es: seq<IndexEntry>, stop: nat)
    requires LaidOut(file, pos, es, stop)
    requires pos <= stop <= |file| && stop <= |file'| && file'[pos..stop] == file[pos..stop]
    ensures LaidOut(file', pos, es, stop)
    decreases |es|
  {
    if es != [] {
      var size := EncodedSize(es[|es| - 1]);
      SliceOfEqual(file', file, pos, stop, stop - size, stop);
      SliceOfEqual(file', file, pos, stop, pos, stop - size);
      LaidOutFrame(file, file', pos, es[..|es| - 1], stop - size);
    }
  }

  lemma LaidOutMore(file: seq<Byte>, pos: nat, es: seq<IndexEntry>, stop: nat, e: IndexEntry)
    requires LaidOut(file, pos, es, stop) && pos <= stop && |e.key| < TWO_16
    requires stop + EncodedSize(e) <= |file| && file[stop..stop + EncodedSize(e)] == Encode(e)
    ensures LaidOut(file, pos, es + [e], stop + EncodedSize(e))
  {
    assert (es + [e])[..|es|] == es;
  }

  /** What is laid out is found. */
  lemma {:induction false} LaidOutIsFound(file: seq<Byte>, read: Decoder, pos: nat, es: seq<IndexEntry>, stop: nat)
    requires LaidOut(file, pos, es, stop) && Decodes(read, file, |file|)
    ensures Finds(read, pos, es, stop)
    decreases |es|
  {
    if es != [] {
      var e, init := es[|es| - 1], es[..|es| - 1];
      LaidOutIsFound(file, read, pos, init, stop - EncodedSize(e));
      FindsPlaced(file, read, pos, init, Placed(stop - EncodedSize(e), e));
      assert init + [e] == es;
    }
  }

  /** A gapless log is laid out from the start of the data region. */
  lemma {:induction false} LogIsLaidOut(h: Hash, n: nat, file: seq<Byte>, log: seq<Placed>)
    requires n > 0 && Chained(h, n, file, log) && Gapless(n, log)
    ensures LaidOut(file, DataBase(n), Entries(log), LogEnd(n, log)) && DataBase(n) <= LogEnd(n, log)
  {
    if log != [] {
      LogIsLaidOut(h, n, file, log[..|log| - 1]);
      LaidOutMore(file, DataBase(n), Entries(log[..|log| - 1]), log[|log| - 1].off, log[|log| - 1].entry);
    }
  }

  lemma FindsPlaced(file: seq<Byte>, read: Decoder, pos: nat, es: seq<IndexEntry>, p: Placed)
    requires Finds(read, pos, es, p.off) && Decodes(read, file, |file|)
    requires |p.entry.key| < TWO_16 && End(p) <= |file| && file[p.off..End(p)] == Encode(p.entry)
    ensures Finds(read, pos, es + [p.entry], End(p))
  {
    ReaderReads(file, read, p.off, p.entry);
    FindsMore(read, pos, es, p.off, p.entry);
  }

  /** What a scan makes of an index file: the map its entries spell out, or a failure. */
  ghost function Spelled(read: Decoder, end: nat, pos: nat): Option<map<Key, Cell>> {
    var scan := Scan(read, end, pos);
    if scan.None? then None else Some(MapOf(scan.value))
  }

  /**
   The scan of laid-out entries with the first `w` bytes of one more behind them, as an interrupted append leaves it: it
   fails unless nothing or the whole of that entry was written, and a whole one it takes for published.
   */
  lemma ScanOfTornLog(file: seq<Byte>, read: Decoder, pos: nat, es: seq<IndexEntry>, stop: nat, e: IndexEntry, w: nat)
    requires LaidOut(file, pos, es, stop) && |e.key| < TWO_16 && w <= EncodedSize(e)
    requires stop + w == |file| && file[stop..] == Encode(e)[..w]
    requires Decodes(read, file, |file|)
    ensures Spelled(read, |file|, pos) ==
            if w == 0 then Some(MapOf(es)) else if w == EncodedSize(e) then Some(MapOf(es + [e])) else None
  {
    LaidOutIsFound(file, read, pos, es, stop);
    ReadTailAt(file, read, stop, e, w);
    ScanLogAndTail(read, pos, es, stop, e, w);
  }

  /** The scan of a file that ends with the last of its laid-out entries. */
  lemma ScanOfWhole(file: seq<Byte>, read: Decoder, pos: nat, es: seq<IndexEntry>)
    requires LaidOut(file, pos, es, |file|) && Decodes(read, file, |file|)
    ensures Scan(read, |file|, pos) == Some(es) && Spelled(read, |file|, pos) == Some(MapOf(es))
  {
    LaidOutIsFound(file, read, pos, es, |file|);
    ScanVisits(read, |file|, pos, es, |file|);
    assert es + [] == es;
  }

  /** The linear scan of an index that was never interrupted returns its whole log. */
  lemma ScanOfLog(h: Hash, n: nat, file: seq<Byte>, read: Decoder, log: seq<Placed>)
    requires n > 0 && Chained(h, n, file, log) && Dense(n, file, log)
    requires Decodes(read, file, |file|)
    ensures Scan(read, |file|, DataBase(n)) == Some(Entries(log))
    ensures Spelled(read, |file|, DataBase(n)) == Some(Contents(log))
  {
    LogIsLaidOut(h, n, file, log);
    ScanOfWhole(file, read, DataBase(n), Entries(log));
    MapOfEntries(log);
  }

  /** The map a linear scan of the file's data region spells out. */
  ghost function SpelledBy(file: seq<Byte>, n: nat): Option<map<Key, Cell>> {
    Spelled(DecoderOf(file), |file|, DataBase(n))
  }

  // ---- Keys that were read are short ----

  lemma KeyIsShort(file: seq<Byte>, pos: nat)
    requires ReadEntry(file, pos).Some?
    ensures |ReadEntry(file, pos).value.entry.key| < TWO_16
  {
    Widths();
    var full := file[pos..pos + FIXED + KeyLength(file, pos)];
    SliceOfSlice(file, pos, pos + FIXED + KeyLength(file, pos), 8, 10);
    FromLittleEndianBound(file[pos + 8..pos + 10]);
    assert |DecodeFull(full).entry.key| == KeyLength(full, 0);
  }

  lemma {:induction false} ScanReadsShort(read: Decoder, file: seq<Byte>, pos: nat)
    requires Decodes(read, file, |file|)
    ensures var scan := Scan(read, |file|, pos);
            scan.Some? ==> forall i :: 0 <= i < |scan.value| ==> |scan.value[i].key| < TWO_16
    decreases |file| - pos
  {
    if pos < |file| && read(pos).Some? {
      ReadIsShort(read, file, pos);
      ScanReadsShort(read, file, pos + read(pos).value.size);
    }
  }

  lemma ReadIsShort(read: Decoder, file: seq<Byte>, pos: nat)
    requires Decodes(read, file, |file|) && pos <= |file| && read(pos).Some?
    ensures |read(pos).value.entry.key| < TWO_16
  {
    DecodesAt(read, file, |file|, pos);
    KeyIsShort(file, pos);
  }

  lemma SpelledKeysShort(read: Decoder, file: seq<Byte>, pos: nat)
    requires Decodes(read, file, |file|) && Spelled(read, |file|, pos).Some?
    ensures forall k :: k in Spelled(read, |file|, pos).value ==> |k| < TWO_16
  {
    ScanReadsShort(read, file, pos);
    MapOfShort(Scan(read, |file|, pos).value);
  }

  lemma {:induction false} MapOfShort(es: seq<IndexEntry>)
    requires forall i :: 0 <= i < |es| ==> |es[i].key| < TWO_16
    ensures forall k :: k in MapOf(es) ==> |k| < TWO_16
  {
    if es != [] {
      MapOfShort(es[..|es| - 1]);
    }
  }

  // ---- Single reads ----

  lemma ReaderReads(file: seq<Byte>, read: Decoder, pos: nat, e: IndexEntry)
    requires Decodes(read, file, |file|)
    requires |e.key| < TWO_16 && pos + EncodedSize(e) <= |file| && file[pos..pos + EncodedSize(e)] == Encode(e)
    ensures read(pos) == Some(Decoded(e, EncodedSize(e)))
  {
    ReadsBack(e, file, pos);
    DecodesAt(read, file, |file|, pos);
  }

  lemma ScanLogAndTail(read: Decoder, pos: nat, es: seq<IndexEntry>, stop: nat, e: IndexEntry, w: nat)
    requires Finds(read, pos, es, stop) && w <= EncodedSize(e)
    requires 0 < w < EncodedSize(e) ==> read(stop).None?
    requires w == EncodedSize(e) ==> read(stop) == Some(Decoded(e, EncodedSize(e)))
    ensures Scan(read, stop + w, pos) == if w == 0 then Some(es) else if w == EncodedSize(e) then Some(es + [e]) else None
  {
    ScanVisits(read, stop + w, pos, es, stop);
    ScanLast(read, stop + w, stop, e, w);
    assert es + [] == es;
  }

  lemma ScanLast(read: Decoder, end: nat, pos: nat, e: IndexEntry, w: nat)
    requires pos + w == end && w <= EncodedSize(e)
    requires 0 < w < EncodedSize(e) ==> read(pos).None?
    requires w == EncodedSize(e) ==> read(pos) == Some(Decoded(e, EncodedSize(e)))
    ensures Scan(read, end, pos) == if w == 0 then Some([]) else if w == EncodedSize(e) then Some([e]) else None
  {
    if w == EncodedSize(e) {
      assert Scan(read, end, pos + w) == Some([]) && [e] + [] == [e];
    }
  }

  lemma ReadTailAt(file: seq<Byte>, read: Decoder, stop: nat, e: IndexEntry, w: nat)
    requires Decodes(read, file, |file|)
    requires |e.key| < TWO_16 && w <= EncodedSize(e) && stop <= |file| && file[stop..] == Encode(e)[..w]
    ensures if w == EncodedSize(e) then read(stop) == Some(Decoded(e, EncodedSize(e))) else read(stop).None?
  {
    var tail := Encode(e)[..w];
    Halves(file, stop);
    assert file == file[..stop] + tail;
    ReadTail(file[..stop], e, w);
    DecodesAt(read, file, |file|, stop);
  }

  lemma Halves(file: seq<Byte>, stop: nat)
    requires stop <= |file|
    ensures file == file[..stop] + file[stop..]
  {
  }

  lemma ReadTail(before: seq<Byte>, e: IndexEntry, w: nat)
    requires |e.key| < TWO_16 && 0 <= w <= EncodedSize(e)
    ensures var r := ReadEntry(before + Encode(e)[..w], |before|);
            if w == EncodedSize(e) then r == Some(Decoded(e, EncodedSize(e))) else r.None?
  {
    var file := before + Encode(e)[..w];
    if w == EncodedSize(e) {
      assert file == before + Encode(e) + [];
      ReadsBackIffShortKey(e, before, []);
    } else if w >= 10 {
      TornKeyLength(before, e, w);
    }
  }

  /** The length field of a torn entry still announces the whole entry. */
  lemma TornKeyLength(before: seq<Byte>, e: IndexEntry, w: nat)
    requires |e.key| < TWO_16 && 10 <= w <= EncodedSize(e)
    ensures KeyLength(before + Encode(e)[..w], |before|) == |e.key|
  {
    var file := before + Encode(e)[..w];
    var n := |before|;
    var missing := Encode(e)[w..];
    Halves(Encode(e), w);
    Assoc(before, Encode(e)[..w], missing);
    Middle(before, Encode(e), []);
    assert before + Encode(e) + [] == before + Encode(e) == file + missing;
    HeadFields(e, file + missing, n);
    SliceOfPrefix(file, missing, n + 8, n + 10);
  }
}
