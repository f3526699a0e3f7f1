/** The on-disk form of one hash-index entry: encoder and decoder. */
module EntryCodec {
  import opened Bytes

  datatype NeedleAddr = NeedleAddr(volumeId: Uint32, offset: Uint64, size: Uint64)

  const NO_ADDR := NeedleAddr(0, 0, 0)

  datatype IndexEntry = IndexEntry(next: Int64, key: Key, addr: NeedleAddr, expiresAt: Int64, deleted: bool)

  /** Bytes of an entry other than its key: next, key length, address, expiry, tombstone flag. */
  const FIXED: int := 8 + 2 + 4 + 8 + 8 + 8 + 1

  const READ_AHEAD: int := 256

  function EncodedSize(e: IndexEntry): nat { FIXED + |e.key| }

  function Tail(e: IndexEntry): (bs: seq<Byte>)
    ensures |bs| == 29
  {
    LittleEndian(e.addr.volumeId, 4) + LittleEndian(e.addr.offset, 8) + LittleEndian(e.addr.size, 8)
    + LittleEndian(ToUint64(e.expiresAt), 8) + [if e.deleted then 1 else 0]
  }

  /** The layout of one entry. The key length is cut to 16 bits, as the source's cast does. */
  function Encode(e: IndexEntry): (bs: seq<Byte>)
    ensures |bs| == EncodedSize(e)
  {
    LittleEndian(ToUint64(e.next), 8) + LittleEndian(|e.key| % TWO_16, 2) + e.key + Tail(e)
  }

  /** Where each field lies. */
  lemma Layout(e: IndexEntry)
    ensures var bs, k := Encode(e), |e.key|;
            && |bs| == 39 + k
            && bs[0..8] == LittleEndian(ToUint64(e.next), 8) && bs[8..10] == LittleEndian(k % 65536, 2)
            && bs[10..10 + k] == e.key && bs[10 + k..14 + k] == LittleEndian(e.addr.volumeId, 4)
            && bs[14 + k..22 + k] == LittleEndian(e.addr.offset, 8) && bs[22 + k..30 + k] == LittleEndian(e.addr.size, 8)
            && bs[30 + k..38 + k] == LittleEndian(ToUint64(e.expiresAt), 8) && bs[38 + k] == if e.deleted then 1 else 0
  {
  }

  type Size = n: int | 0 < n witness 1

  datatype Decoded = Decoded(entry: IndexEntry, size: Size)

  function U(bs: seq<Byte>): (u: nat)
    ensures |bs| == 4 ==> u < TWO_32
    ensures |bs| == 8 ==> u < TWO_64
  {
    Widths();
    FromLittleEndianBound(bs);
    FromLittleEndian(bs)
  }

  /** The key length stored in the entry at `pos`. */
  function KeyLength(file: seq<Byte>, pos: nat): nat
    requires pos + 10 <= |file|
  {
    U(file[pos + 8..pos + 10])
  }

  /** The fields of a buffer that holds one whole entry. */
  function DecodeFull(full: seq<Byte>): Decoded
    requires |full| >= 10 && |full| == FIXED + KeyLength(full, 0)
  {
    var n := KeyLength(full, 0);
    var t := full[10 + n..];
    Decoded(IndexEntry(ToInt64(U(full[0..8])), full[10..10 + n],
                       NeedleAddr(U(t[0..4]), U(t[4..12]), U(t[12..20])),
                       ToInt64(U(t[20..28])), t[28] != 0),
            |full|)
  }

  /** What a read at `pos` yields, whichever path the reader takes: `None` is its error. */
  function ReadEntry(file: seq<Byte>, pos: int): (r: Option<Decoded>) {
    if pos < 0 || pos + 10 > |file| then None
    else
      var n := KeyLength(file, pos);
      if pos + FIXED + n > |file| then None
      else
        SliceOfSlice(file, pos, pos + FIXED + n, 8, 10);
        Some(DecodeFull(file[pos..pos + FIXED + n]))
  }

  /** Fills a buffer in place, replacing it when it is too small. */
  method EncodeIndexEntry(buf: array<Byte>, e: IndexEntry) returns (b: array<Byte>, need: nat)
    modifies buf
    ensures b == buf || fresh(b)
    ensures need <= b.Length
    ensures b[..need] == Encode(e)
  {
    need := 8 + 2 + |e.key| + 4 + 8 + 8 + 8 + 1;
    b := buf;
    if buf.Length < need {
      b := new Byte[need](_ => 0);
    }
    PutHead(b, e);
    PutTail(b, 10 + |e.key|, e);
  }

  method PutHead(b: array<Byte>, e: IndexEntry)
    requires EncodedSize(e) <= b.Length
    modifies b
    ensures b[..10 + |e.key|] == LittleEndian(ToUint64(e.next), 8) + LittleEndian(|e.key| % TWO_16, 2) + e.key
  {
    PutLittleEndian(b, 0, ToUint64(e.next), 8);
    PutLittleEndian(b, 8, |e.key| % TWO_16, 2);
    ghost var head := LittleEndian(ToUint64(e.next), 8) + LittleEndian(|e.key| % TWO_16, 2);
    for i := 0 to |e.key|
      invariant b[..10 + i] == head + e.key[..i]
    {
      b[10 + i] := e.key[i];
      assert b[..10 + i + 1] == b[..10 + i] + [e.key[i]];
    }
  }

  method PutTail(b: array<Byte>, o: nat, e: IndexEntry)
    requires o + 29 <= b.Length
    modifies b
    ensures b[..o + 29] == old(b[..o]) + Tail(e)
  {
    ghost var before := b[..o];
    ghost var volume, offset := LittleEndian(e.addr.volumeId, 4), LittleEndian(e.addr.offset, 8);
    ghost var size, expiry := LittleEndian(e.addr.size, 8), LittleEndian(ToUint64(e.expiresAt), 8);
    PutLittleEndian(b, o, e.addr.volumeId, 4);
    PutLittleEndian(b, o + 4, e.addr.offset, 8);
    Assoc(before, volume, offset);
    PutLittleEndian(b, o + 12, e.addr.size, 8);
    Assoc(before, volume + offset, size);
    PutLittleEndian(b, o + 20, ToUint64(e.expiresAt), 8);
    Assoc(before, volume + offset + size, expiry);
    b[o + 28] := if e.deleted then 1 else 0;
    assert b[..o + 29] == b[..o + 28] + [b[o + 28]];
    Assoc(before, volume + offset + size + expiry, [b[o + 28]]);
  }

  /** One read-ahead of 256 bytes; entries that do not fit in it take a second, exact read. */
  method ReadEntryAt(file: seq<Byte>, pos: int) returns (r: Option<Decoded>)
    ensures r == ReadEntry(file, pos)
  {
    if pos < 0 || pos > |file| {
      return None;
    }
    var n := if |file| - pos < READ_AHEAD then |file| - pos else READ_AHEAD;
    if n < 10 {
      return None;
    }
    var b := file[pos..pos + n];
    SliceOfSlice(file, pos, pos + n, 8, 10);
    var total := FIXED + KeyLength(b, 0);
    var full;
    if n >= total {
      full := b[..total];
      assert full == file[pos..pos + total];
    } else {
      if pos + total > |file| {
        return None;
      }
      full := b + file[pos + n..pos + total];
      assert full == file[pos..pos + total];
    }
    SliceOfSlice(file, pos, pos + total, 8, 10);
    r := Some(DecodeFull(full));
  }

  lemma TailFields(e: IndexEntry)
    ensures var t := Tail(e);
            && U(t[0..4]) == e.addr.volumeId && U(t[4..12]) == e.addr.offset && U(t[12..20]) == e.addr.size
            && U(t[20..28]) == ToUint64(e.expiresAt) && (t[28] != 0 <==> e.deleted)
  {
    var t := Tail(e);
    Widths();
    assert t[0..4] == LittleEndian(e.addr.volumeId, 4);
    assert t[4..12] == LittleEndian(e.addr.offset, 8);
    assert t[12..20] == LittleEndian(e.addr.size, 8);
    assert t[20..28] == LittleEndian(ToUint64(e.expiresAt), 8);
    LittleEndianRoundTrip(e.addr.volumeId, 4);
    LittleEndianRoundTrip(e.addr.offset, 8);
    LittleEndianRoundTrip(e.addr.size, 8);
    LittleEndianRoundTrip(ToUint64(e.expiresAt), 8);
  }

  lemma HeadFields(e: IndexEntry, file: seq<Byte>, pos: nat)
    requires pos + EncodedSize(e) <= |file|
    requires file[pos..pos + EncodedSize(e)] == Encode(e)
    ensures KeyLength(file, pos) == |e.key| % TWO_16
    ensures U(file[pos..pos + 8]) == ToUint64(e.next)
  {
    Widths();
    var bs := Encode(e);
    SliceOfSlice(file, pos, pos + EncodedSize(e), 8, 10);
    SliceOfSlice(file, pos, pos + EncodedSize(e), 0, 8);
    assert bs[8..10] == LittleEndian(|e.key| % TWO_16, 2);
    assert bs[0..8] == LittleEndian(ToUint64(e.next), 8);
    LittleEndianRoundTrip(|e.key| % TWO_16, 2);
    LittleEndianRoundTrip(ToUint64(e.next), 8);
  }

  /** Decoding the bytes of an entry gives the entry back. */
  lemma DecodesBack(e: IndexEntry)
    requires |e.key| < TWO_16
    ensures |Encode(e)| >= 10 && |Encode(e)| == FIXED + KeyLength(Encode(e), 0)
    ensures DecodeFull(Encode(e)) == Decoded(e, EncodedSize(e))
  {
    var bs := Encode(e);
    assert bs[0..0 + EncodedSize(e)] == bs;
    HeadFields(e, bs, 0);
    TailFields(e);
    assert bs[10..10 + |e.key|] == e.key;
    assert bs[10 + |e.key|..] == Tail(e);
  }

  /** Wherever an entry's bytes lie, and whatever surrounds them, the reader returns the entry. */
  lemma ReadsBack(e: IndexEntry, file: seq<Byte>, pos: nat)
    requires |e.key| < TWO_16
    requires pos + EncodedSize(e) <= |file|
    requires file[pos..pos + EncodedSize(e)] == Encode(e)
    ensures ReadEntry(file, pos) == Some(Decoded(e, EncodedSize(e)))
  {
    HeadFields(e, file, pos);
    DecodesBack(e);
  }

  /** The 16-bit length field is the only limit: an entry reads back exactly when its key is shorter than 65536 bytes. */
  lemma ReadsBackIffShortKey(e: IndexEntry, before: seq<Byte>, after: seq<Byte>)
    ensures ReadEntry(before + Encode(e) + after, |before|) == Some(Decoded(e, EncodedSize(e)))
            <==> |e.key| < TWO_16
  {
    var file := before + Encode(e) + after;
    assert file[|before|..|before| + EncodedSize(e)] == Encode(e);
    HeadFields(e, file, |before|);
    if |e.key| < TWO_16 {
      ReadsBack(e, file, |before|);
    }
  }

  /** Reading an entry of any key length: its next offset is right, its key has the length cut to 16 bits. */
  lemma AnyEntryReads(e: IndexEntry, file: seq<Byte>, pos: nat)
    requires pos + EncodedSize(e) <= |file| && file[pos..pos + EncodedSize(e)] == Encode(e)
    ensures ReadEntry(file, pos).Some?
    ensures ReadEntry(file, pos).value.entry.next == e.next
    ensures |ReadEntry(file, pos).value.entry.key| == |e.key| % TWO_16
  {
    HeadFields(e, file, pos);
    var n := |e.key| % TWO_16;
    SliceOfSlice(file, pos, pos + FIXED + n, 8, 10);
    SliceOfSlice(file, pos, pos + FIXED + n, 0, 8);
  }
}
