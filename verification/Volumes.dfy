/** Append-only volume files: the record format, one volume, and the manager that spreads writes over drives. */
module Volumes {
  import opened Bytes

  const DEFAULT_MAX_VOLUME_SIZE: nat := 2 * 1024 * 1024 * 1024

  datatype Addr = Addr(volumeId: nat, offset: nat, size: nat)

  /** On disk a blob is its length in eight big-endian bytes, then its bytes. */
  function Record(data: Blob): (bs: seq<Byte>)
    ensures |bs| == 8 + |data|
  {
    BigEndian(|data|, 8) + data
  }

  /** The length comes first, highest byte first; then the bytes. */
  lemma RecordLayout(data: Blob, i: nat)
    requires i < |Record(data)|
    ensures Record(data)[i] == if i < 8 then |data| / Pow256(7 - i) % 256 else data[i - 8]
  {
    if i < 8 {
      BigEndianAt(|data|, 8, i);
    }
  }

  /** One read of header and payload; `None` is the error of a short read or a header that disagrees. */
  function ReadRecord(file: seq<Byte>, offset: nat, size: nat): Option<Blob> {
    if offset + 8 + size > |file| then None
    else if FromBigEndian(file[offset..offset + 8]) != size then None
    else Some(file[offset + 8..offset + 8 + size])
  }

  /** A volume: its file, and where the next write is believed to land. */
  datatype Volume = Volume(drive: nat, file: seq<Byte>, end: nat)

  /** A successful write: the bytes go to the end of the file, the address names `end`. */
  function Append(v: Volume, data: Blob): Volume {
    Volume(v.drive, v.file + Record(data), v.end + 8 + |data|)
  }

  lemma RecordReadsBack(before: seq<Byte>, data: Blob, after: seq<Byte>)
    requires |data| < TWO_64
    ensures ReadRecord(before + Record(data) + after, |before|, |data|) == Some(data)
  {
    var file := before + Record(data) + after;
    var n := |before|;
    Middle(before, Record(data), after);
    SliceOfSlice(file, n, n + 8 + |data|, 0, 8);
    SliceOfSlice(file, n, n + 8 + |data|, 8, 8 + |data|);
    assert Record(data)[0..8] == BigEndian(|data|, 8);
    assert Record(data)[8..8 + |data|] == data;
    Widths();
    BigEndianRoundTrip(|data|, 8);
  }

  /** What could be read stays readable, unchanged, whatever is appended. */
  lemma ReadStays(file: seq<Byte>, more: seq<Byte>, offset: nat, size: nat)
    requires ReadRecord(file, offset, size).Some?
    ensures ReadRecord(file + more, offset, size) == ReadRecord(file, offset, size)
  {
    SliceOfPrefix(file, more, offset, offset + 8);
    SliceOfPrefix(file, more, offset + 8, offset + 8 + size);
  }

  lemma {:induction false} BigEndianHigh(v: nat, width: nat, i: nat)
    requires v < 256 && i < width - 1
    ensures BigEndian(v, width)[i] == 0
  {
    if i < width - 2 {
      BigEndianHigh(v / 256, width - 1, i);
    } else {
      BigEndianZero(width - 1, i);
    }
  }

  lemma {:induction false} BigEndianZero(width: nat, i: nat)
    requires i < width
    ensures BigEndian(0, width)[i] == 0
  {
    if i < width - 1 {
      BigEndianZero(width - 1, i);
    }
  }

  /** What a reader at the volume's belief `end` finds in the header after writing a blob shorter than 256 bytes. */
  lemma HeaderSeen(v: Volume, data: Blob)
    requires v.end < |v.file| && |data| < 256
    ensures v.end + 8 <= |Append(v, data).file|
    ensures Append(v, data).file[v.end..v.end + 8] == Append(v, []).file[v.end..v.end + 8]
  {
    var f, g := Append(v, data).file, Append(v, []).file;
    forall i | v.end <= i < v.end + 8 ensures f[i] == g[i] {
      if i >= |v.file| {
        BigEndianHigh(|data|, 8, i - |v.file|);
        BigEndianZero(8, i - |v.file|);
      }
    }
    assert f[v.end..v.end + 8] == g[v.end..v.end + 8];
  }

  /** This blob, written next, reads back from the address the write returns. */
  predicate ReadsBackNext(v: Volume, data: Blob) { ReadRecord(Append(v, data).file, v.end, |data|) == Some(data) }

  /** Whatever blob is written next does. */
  ghost predicate NextReadsBack(v: Volume) { forall data: Blob :: |data| < TWO_63 ==> ReadsBackNext(v, data) }

  lemma AtTheEnd(v: Volume, data: Blob)
    requires v.end == |v.file| && |data| < TWO_63
    ensures ReadsBackNext(v, data)
  {
    RecordReadsBack(v.file, data, []);
    assert v.file + Record(data) + [] == v.file + Record(data);
  }

  /** An address behind the end is a short read, one before it cannot fit both of two lengths. */
  lemma ElsewhereFails(v: Volume)
    requires v.end != |v.file|
    ensures !ReadsBackNext(v, []) || !ReadsBackNext(v, [0])
  {
    if v.end < |v.file| {
      HeaderSeen(v, [0]);
    }
  }

  /**
   Every next write reads back from the address it returns exactly when the volume's belief about its end is the
   length of its file. A write that failed halfway leaves the belief behind, and breaks later addresses.
   */
  lemma WritesReadBackIffEndIsSize(v: Volume)
    ensures NextReadsBack(v) <==> v.end == |v.file|
  {
    if v.end == |v.file| {
      forall data: Blob | |data| < TWO_63 ensures ReadsBackNext(v, data) {
        AtTheEnd(v, data);
      }
    } else {
      ElsewhereFails(v);
    }
  }

  // ---- Writes that fail halfway ----

  /** What can happen to a volume. A failed write may leave bytes behind; a reopening takes the end from the file. */
  datatype Event = Wrote(data: Blob) | Failed(left: seq<Byte>) | Reopened

  function Apply(v: Volume, e: Event): Volume {
    match e
    case Wrote(data) => Append(v, data)
    case Failed(left) => v.(file := v.file + left)
    case Reopened => v.(end := |v.file|)
  }

  function ApplyEvents(v: Volume, es: seq<Event>): Volume {
    if es == [] then v else Apply(ApplyEvents(v, es[..|es| - 1]), es[|es| - 1])
  }

  /** No write failed with a byte written since the volume was last opened. */
  predicate Clean(es: seq<Event>) {
    es == []
    || es[|es| - 1].Reopened?
    || ((es[|es| - 1].Failed? ==> es[|es| - 1].left == []) && Clean(es[..|es| - 1]))
  }

  lemma {:induction false} EndIsSizeIffClean(v: Volume, es: seq<Event>)
    requires v.end == |v.file|
    ensures var v' := ApplyEvents(v, es); v'.end <= |v'.file| && (v'.end == |v'.file| <==> Clean(es))
  {
    if es != [] {
      EndIsSizeIffClean(v, es[..|es| - 1]);
    }
  }

  /**
   Over every history of a volume: every next write reads back from the address it returns, exactly when no write has
   failed with a byte written since the last opening.
   */
  lemma NextWritesReadBackIffClean(v: Volume, es: seq<Event>)
    requires v.end == |v.file|
    ensures NextReadsBack(ApplyEvents(v, es)) <==> Clean(es)
  {
    EndIsSizeIffClean(v, es);
    WritesReadBackIffEndIsSize(ApplyEvents(v, es));
  }

  lemma LeftoverBreaksNext(v: Volume, left: seq<Byte>)
    requires v.end == |v.file|
    ensures NextReadsBack(Apply(v, Failed(left))) <==> |left| == 0
  {
    var v' := Apply(v, Failed(left));
    assert v'.end == |v'.file| <==> |left| == 0;
    WritesReadBackIffEndIsSize(v');
  }

  /** A write cut off after `k` bytes of its record. */
  function CutOff(data: Blob, k: nat): (e: Event)
    requires k <= 8 + |data|
    ensures e.Failed? && |e.left| == k
  {
    Failed(Record(data)[..k])
  }

  /** It breaks later addresses as soon as `k` is not zero. */
  lemma CutWriteBreaksNext(v: Volume, data: Blob, k: nat)
    requires v.end == |v.file| && k <= 8 + |data|
    ensures NextReadsBack(Apply(v, CutOff(data, k))) <==> k == 0
  {
    LeftoverBreaksNext(v, CutOff(data, k).left);
  }

  // ---- The manager ----

  /** An address that was returned, and the blob it was returned for. */
  datatype Issue = Issue(addr: Addr, data: Blob)

  ghost predicate Honoured(volumes: map<nat, Volume>, i: Issue) {
    && i.addr.volumeId in volumes && i.addr.size == |i.data|
    && ReadRecord(volumes[i.addr.volumeId].file, i.addr.offset, i.addr.size) == Some(i.data)
  }

  /** The earlier record ends before the later one starts, when both lie in the same volume. */
  predicate Apart(earlier: Issue, later: Issue) {
    earlier.addr.volumeId == later.addr.volumeId ==> earlier.addr.offset + 8 + earlier.addr.size <= later.addr.offset
  }

  class VolumeManager {
    const drives: nat
    const maxVolumeSize: nat
    var volumes: map<nat, Volume>
    var driveCurrent: seq<nat>   // the volume each drive writes to
    var driveIdx: nat
    var nextId: nat
    ghost var issued: seq<Issue>

    ghost predicate Valid()
      reads this
    {
      && drives > 0 && |driveCurrent| == drives
      && (forall d :: 0 <= d < drives ==> driveCurrent[d] in volumes && volumes[driveCurrent[d]].drive == d)
      && (forall id :: id in volumes ==> id < nextId && volumes[id].end == |volumes[id].file|)
      && (forall i :: 0 <= i < |issued| ==> Honoured(volumes, issued[i]))
      && (forall i, j :: 0 <= i < j < |issued| ==> Apart(issued[i], issued[j]))
    }

    /** Fresh drives: each gets a volume. */
    constructor (drives: nat, maxVolumeSize: nat)
      requires drives > 0
      ensures Valid() && issued == [] && this.drives == drives && nextId == drives
      ensures this.maxVolumeSize == if maxVolumeSize == 0 then DEFAULT_MAX_VOLUME_SIZE else maxVolumeSize
      ensures forall id :: id in volumes ==> volumes[id].file == []
    {
      this.drives := drives;
      this.maxVolumeSize := if maxVolumeSize == 0 then DEFAULT_MAX_VOLUME_SIZE else maxVolumeSize;
      volumes := map id | 0 <= id < drives :: Volume(id, [], 0);
      driveCurrent := seq(drives, d => d);
      driveIdx, nextId, issued := 0, drives, [];
    }

    /** A new, empty volume file under the next identifier. */
    method CreateVolume(drive: nat) returns (id: nat)
      requires Valid() && drive < drives
      modifies this
      ensures Valid() && issued == old(issued) && driveIdx == old(driveIdx)
      ensures id == old(nextId) && volumes == old(volumes)[id := Volume(drive, [], 0)]
      ensures driveCurrent == old(driveCurrent)[drive := id]
    {
      id := nextId;
      nextId := nextId + 1;
      volumes := volumes[id := Volume(drive, [], 0)];
      driveCurrent := driveCurrent[drive := id];
    }

    /** Appends to a known volume. */
    method AppendTo(id: nat, data: Blob) returns (addr: Addr)
      requires Valid() && id in volumes && |data| < TWO_63
      modifies this`volumes, this`issued
      ensures Valid()
      ensures addr == Addr(id, |old(volumes)[id].file|, |data|)
      ensures volumes == old(volumes)[id := Append(old(volumes)[id], data)]
      ensures issued == old(issued) + [Issue(addr, data)]
    {
      var v := volumes[id];
      addr := Addr(id, v.end, |data|);
      volumes := volumes[id := Append(v, data)];
      issued := issued + [Issue(addr, data)];
      RecordReadsBack(v.file, data, []);
      assert v.file + Record(data) + [] == v.file + Record(data);
      forall i | 0 <= i < |old(issued)| ensures Honoured(volumes, issued[i]) && Apart(issued[i], Issue(addr, data)) {
        assert Honoured(old(volumes), issued[i]);
        if issued[i].addr.volumeId == id {
          ReadStays(v.file, Record(data), issued[i].addr.offset, issued[i].addr.size);
        }
      }
    }

    /** Writes to the next drive in turn, starting a new volume there when the current one is full. */
    method Write(data: Blob) returns (addr: Addr)
      requires Valid() && |data| < TWO_63
      modifies this
      ensures Valid() && issued == old(issued) + [Issue(addr, data)]
      ensures driveIdx == old(driveIdx) + 1
      ensures var current := old(driveCurrent)[old(driveIdx) % drives];
              addr.volumeId == if old(volumes)[current].end >= maxVolumeSize then old(nextId) else current
      ensures addr.volumeId in volumes && volumes[addr.volumeId].drive == old(driveIdx) % drives
    {
      var di := driveIdx % drives;
      driveIdx := driveIdx + 1;
      var id := driveCurrent[di];
      if volumes[id].end >= maxVolumeSize {
        id := CreateVolume(di);
      }
      addr := AppendTo(id, data);
    }

    /** Writes to a volume chosen by the caller, opening it on the first drive when it is new. */
    method WriteToVolume(id: nat, data: Blob) returns (addr: Addr)
      requires Valid() && |data| < TWO_63
      modifies this
      ensures Valid() && issued == old(issued) + [Issue(addr, data)]
      ensures addr == Addr(id, if id in old(volumes) then |old(volumes)[id].file| else 0, |data|)
    {
      if id !in volumes {
        volumes := volumes[id := Volume(0, [], 0)];
        if id >= nextId {
          nextId := id + 1;
        }
      }
      addr := AppendTo(id, data);
    }

    /** Any address ever returned still yields its exact bytes. */
    method Read(addr: Addr) returns (r: Option<Blob>)
      requires Valid()
      ensures forall i :: 0 <= i < |issued| && issued[i].addr == addr ==> r == Some(issued[i].data)
      ensures r == if addr.volumeId !in volumes then None
                   else ReadRecord(volumes[addr.volumeId].file, addr.offset, addr.size)
    {
      assert forall i :: 0 <= i < |issued| ==> Honoured(volumes, issued[i]);
      if addr.volumeId !in volumes {
        return None;
      }
      r := ReadRecord(volumes[addr.volumeId].file, addr.offset, addr.size);
    }

    /** A restart: volumes are found again by scanning the drives, and `end` is taken from the file sizes. */
    method Reopen()
      requires Valid()
      modifies this
      ensures Valid() && issued == old(issued)
      ensures forall id :: id in old(volumes) ==> id in volumes && volumes[id] == old(volumes)[id]
    {
      ghost var kept := issued;
      var onDisk := volumes;
      volumes, nextId, driveIdx, issued := map[], 0, 0, [];
      var todo := onDisk.Keys;
      while todo != {}
        invariant todo <= onDisk.Keys && issued == []
        invariant volumes == map id | id in onDisk && id !in todo :: onDisk[id]
        invariant forall id :: id in volumes ==> id < nextId
        decreases todo
      {
        var id :| id in todo;
        volumes := volumes[id := Volume(onDisk[id].drive, onDisk[id].file, |onDisk[id].file|)];
        if id >= nextId {
          nextId := id + 1;
        }
        todo := todo - {id};
      }
      assert volumes == onDisk;
      PickCurrent();
      issued := kept;
      forall i | 0 <= i < |issued| ensures Honoured(volumes, issued[i]) {
        assert Honoured(onDisk, issued[i]);
      }
    }

    /** Each drive continues with one of its volumes, or with a new one when it has none. */
    method PickCurrent()
      requires drives > 0 && issued == []
      requires forall id :: id in volumes ==> id < nextId && volumes[id].end == |volumes[id].file|
      modifies this
      ensures Valid() && issued == []
      ensures forall id :: id in old(volumes) ==> id in volumes && volumes[id] == old(volumes)[id]
    {
      driveCurrent := [];
      for d := 0 to drives
        invariant issued == [] && |driveCurrent| == d
        invariant forall e :: 0 <= e < d ==> driveCurrent[e] in volumes && volumes[driveCurrent[e]].drive == e
        invariant forall id :: id in volumes ==> id < nextId && volumes[id].end == |volumes[id].file|
        invariant forall id :: id in old(volumes) ==> id in volumes && volumes[id] == old(volumes)[id]
      {
        var mine := set id | id in volumes && volumes[id].drive == d;
        if mine == {} {
          volumes := volumes[nextId := Volume(d, [], 0)];
          driveCurrent := driveCurrent + [nextId];
          nextId := nextId + 1;
        } else {
          var id :| id in mine;
          driveCurrent := driveCurrent + [id];
        }
      }
    }
  }
}
