/**
 The volume pool: volume groups replicated over several backends, read with failover behind the cache. Writes are
 serialized and succeed on every member; backends are distinct.
 */
module VolumePool {
  import opened Bytes
  import opened Volumes
  import opened LruCache

  /** The volume files of one backend. */
  type Store = map<nat, seq<Byte>>

  function FileOf(store: Store, id: nat): seq<Byte> { if id in store then store[id] else [] }

  /** Everything a read depends on. Backend 0 is the local one. */
  datatype Layout = Layout(stores: seq<Store>, registry: map<nat, seq<nat>>, nextId: nat)

  ghost predicate Distinct(ms: seq<nat>) { forall i, j :: 0 <= i < j < |ms| ==> ms[i] != ms[j] }

  /** The group has as many members as there are to be copies, or backends, and they are the first backends in order. */
  ghost predicate FirstBackends(l: Layout, g: nat, copies: nat)
    requires g in l.registry
  {
    && (|l.registry[g]| == copies <= |l.stores| || |l.registry[g]| == |l.stores| <= copies)
    && forall i :: 0 <= i < |l.registry[g]| ==> l.registry[g][i] == i
  }

  /** Every member of the group, asked alone, answers the address with the blob. */
  ghost predicate AllHold(l: Layout, a: Addr, data: Blob)
    requires a.volumeId in l.registry
  {
    forall m :: m in l.registry[a.volumeId] ==>
      m < |l.stores| && ReadRecord(FileOf(l.stores[m], a.volumeId), a.offset, a.size) == Some(data)
  }

  ghost predicate Group(l: Layout, g: nat)
    requires g in l.registry
  {
    var ms := l.registry[g];
    && ms != [] && Distinct(ms) && (forall i :: 0 <= i < |ms| ==> ms[i] < |l.stores|)
    && forall i :: 0 <= i < |ms| ==> FileOf(l.stores[ms[i]], g) == FileOf(l.stores[ms[0]], g)
  }

  /** A group's file is the same bytes on every member, and the groups still to come have no file anywhere. */
  ghost predicate Mirrored(l: Layout) {
    && l.stores != []
    && (forall g :: g in l.registry ==> g < l.nextId && Group(l, g))
    && forall m, id :: 0 <= m < |l.stores| && id >= l.nextId ==> FileOf(l.stores[m], id) == []
  }

  /** What the volumes hold at an address. A group the registry does not know is taken to be local. */
  function Stored(l: Layout, a: Addr): Option<Blob>
    requires l.stores != [] && forall g :: g in l.registry ==> l.registry[g] != [] && l.registry[g][0] < |l.stores|
  {
    var primary := if a.volumeId in l.registry then l.registry[a.volumeId][0] else 0;
    ReadRecord(FileOf(l.stores[primary], a.volumeId), a.offset, a.size)
  }

  /** A new group over the first backends, registered under the next identifier. */
  function NewGroup(l: Layout, copies: nat): Layout
    requires l.stores != [] && copies > 0
  {
    var n := if copies > |l.stores| then |l.stores| else copies;
    Layout(l.stores, l.registry[l.nextId := seq(n, i => i)], l.nextId + 1)
  }

  /** Local volumes outside the registry are registered as groups with one, local, member. */
  function Adopted(l: Layout, nextId: nat): Layout
    requires l.stores != []
  {
    l.(registry := map id | id in l.registry.Keys + l.stores[0].Keys :: if id in l.registry then l.registry[id] else [0],
       nextId := nextId)
  }

  /** `next` lies above the old one and above every volume found, and no higher than it must. */
  ghost predicate Fresh(ids: set<nat>, floor: nat, next: nat) {
    floor <= next && (forall id :: id in ids ==> id < next) && (next == floor || next - 1 in ids)
  }

  lemma AdoptedMirrored(l: Layout, next: nat)
    requires Mirrored(l) && Fresh(l.stores[0].Keys, l.nextId, next)
    ensures Mirrored(Adopted(l, next))
    ensures forall a :: Stored(l, a).Some? ==> Stored(Adopted(l, next), a) == Stored(l, a)
  {
    var l' := Adopted(l, next);
    forall g | g in l'.registry ensures g < l'.nextId && Group(l', g) {
      if g in l.registry {
        assert Group(l, g);
      }
    }
  }

  function AppendTo(store: Store, g: nat, data: Blob): Store {
    store[g := FileOf(store, g) + Record(data)]
  }

  /** The stores once the first `k` members of the group have written the record. */
  ghost predicate Written(stores: seq<Store>, stores': seq<Store>, ms: seq<nat>, k: nat, g: nat, data: Blob)
    requires k <= |ms|
  {
    && |stores'| == |stores|
    && (forall m :: 0 <= m < |stores| && m in ms[..k] ==> stores'[m] == AppendTo(stores[m], g, data))
    && (forall m :: 0 <= m < |stores| && m !in ms[..k] ==> stores'[m] == stores[m])
  }

  lemma NewGroupMirrored(l: Layout, copies: nat)
    requires Mirrored(l) && copies > 0
    ensures Mirrored(NewGroup(l, copies))
    ensures forall a :: Stored(l, a).Some? ==> Stored(NewGroup(l, copies), a) == Stored(l, a)
  {
    var l' := NewGroup(l, copies);
    forall g | g in l'.registry ensures Group(l', g) {
      if g != l.nextId {
        assert Group(l, g);
      }
    }
    forall a | Stored(l, a).Some? ensures Stored(l', a) == Stored(l, a) {
      if a.volumeId == l.nextId {
        NotYetStored(l, a);
      }
    }
  }

  lemma NotYetStored(l: Layout, a: Addr)
    requires Mirrored(l) && a.volumeId == l.nextId
    ensures Stored(l, a).None?
  {
    assert a.volumeId !in l.registry && FileOf(l.stores[0], a.volumeId) == [];
  }

  lemma WriteMirrored(l: Layout, stores': seq<Store>, g: nat, data: Blob)
    requires Mirrored(l) && g in l.registry && |data| < TWO_63
    requires Written(l.stores, stores', l.registry[g], |l.registry[g]|, g, data)
    ensures Mirrored(l.(stores := stores'))
    ensures forall a :: Stored(l, a).Some? ==> Stored(l.(stores := stores'), a) == Stored(l, a)
    ensures var offset := |FileOf(l.stores[l.registry[g][0]], g)|;
            Stored(l.(stores := stores'), Addr(g, offset, |data|)) == Some(data)
  {
    var l' := l.(stores := stores');
    var ms := l.registry[g];
    assert ms[..|ms|] == ms && Group(l, g);
    forall g' | g' in l'.registry ensures Group(l', g') {
      WriteGroup(l, stores', g, data, g');
    }
    forall m, id | 0 <= m < |l'.stores| && id >= l'.nextId ensures FileOf(l'.stores[m], id) == [] {
      assert FileOf(l.stores[m], id) == [] && id != g;
    }
    var file := FileOf(l.stores[ms[0]], g);
    assert ms[0] in ms;
    RecordReadsBack(file, data, []);
    assert file + Record(data) + [] == file + Record(data);
    forall a | Stored(l, a).Some? ensures Stored(l', a) == Stored(l, a) {
      StoredStays(l, stores', g, data, a);
    }
  }

  /** Once every member has written the record, each of them alone answers its address. */
  lemma WrittenEverywhere(l: Layout, stores': seq<Store>, g: nat, data: Blob)
    requires Mirrored(l) && g in l.registry && |data| < TWO_63
    requires Written(l.stores, stores', l.registry[g], |l.registry[g]|, g, data)
    ensures Group(l, g)
    ensures AllHold(l.(stores := stores'), Addr(g, |FileOf(l.stores[l.registry[g][0]], g)|, |data|), data)
  {
    assert Group(l, g);
    var ms := l.registry[g];
    assert ms[..|ms|] == ms;
    var file := FileOf(l.stores[ms[0]], g);
    RecordReadsBack(file, data, []);
    assert file + Record(data) + [] == file + Record(data);
    forall m | m in ms ensures FileOf(stores'[m], g) == file + Record(data) {
      var i :| 0 <= i < |ms| && ms[i] == m;
    }
  }

  /** With two backends and two copies, the second backend is a member. */
  lemma SecondBackend(l: Layout, a: Addr, data: Blob, copies: nat)
    requires a.volumeId in l.registry && FirstBackends(l, a.volumeId, copies) && AllHold(l, a, data)
    ensures copies > 1 && |l.stores| > 1 ==> ReadRecord(FileOf(l.stores[1], a.volumeId), a.offset, a.size) == Some(data)
  {
    if copies > 1 && |l.stores| > 1 {
      assert l.registry[a.volumeId][1] in l.registry[a.volumeId];
    }
  }

  lemma WriteGroup(l: Layout, stores': seq<Store>, g: nat, data: Blob, g': nat)
    requires Mirrored(l) && g in l.registry && g' in l.registry
    requires Written(l.stores, stores', l.registry[g], |l.registry[g]|, g, data)
    ensures Group(l.(stores := stores'), g')
  {
    assert Group(l, g) && Group(l, g');
    var ms := l.registry[g];
    assert ms[..|ms|] == ms;
    forall i | 0 <= i < |l.registry[g']|
      ensures FileOf(stores'[l.registry[g'][i]], g') == FileOf(stores'[l.registry[g'][0]], g')
    {
      if g' == g {
        assert ms[i] in ms && ms[0] in ms;
      }
    }
  }

  lemma StoredStays(l: Layout, stores': seq<Store>, g: nat, data: Blob, a: Addr)
    requires Mirrored(l) && g in l.registry && Stored(l, a).Some?
    requires Written(l.stores, stores', l.registry[g], |l.registry[g]|, g, data)
    ensures Stored(l.(stores := stores'), a) == Stored(l, a)
  {
    assert a.volumeId in l.registry ==> Group(l, a.volumeId);
    var primary := if a.volumeId in l.registry then l.registry[a.volumeId][0] else 0;
    if a.volumeId == g && primary in l.registry[g][..|l.registry[g]|] {
      ReadStays(FileOf(l.stores[primary], g), Record(data), a.offset, a.size);
    }
  }

  class VolumePool {
    const maxVolumeSize: nat
    const replicationFactor: nat
    const cache: LruCache?
    var layout: Layout
    var active: Option<nat>
    ghost var issued: seq<Issue>

    ghost predicate Valid()
      reads this, cache
    {
      && replicationFactor > 0 && Mirrored(layout)
      && (active.Some? ==> active.value in layout.registry && FirstBackends(layout, active.value, replicationFactor))
      && (forall i :: 0 <= i < |issued| ==> Answered(layout, issued[i]))
      && (cache != null ==> cache.Valid() && cache.curBytes <= cache.maxBytes
                            && forall a :: a in cache.items ==> Stored(layout, a) == Some(cache.items[a]))
    }

    /**
     A pool over existing backends and the registry of an earlier run; local volumes the registry does not know become
     groups of their own. Whatever the earlier run issued is answered from the start.
     */
    constructor (loaded: Layout, maxVolumeSize: nat, replicationFactor: nat, cache: LruCache?, ghost earlier: seq<Issue>)
      requires Mirrored(loaded)
      requires forall i :: 0 <= i < |earlier| ==> Answered(loaded, earlier[i])
      requires cache != null ==> cache.Valid() && cache.items == map[] && cache.curBytes == 0
      ensures Valid() && issued == earlier && this.cache == cache && active == None
      ensures this.replicationFactor == (if replicationFactor < 1 then 1 else replicationFactor)
      ensures this.maxVolumeSize == maxVolumeSize
      ensures Fresh(loaded.stores[0].Keys, loaded.nextId, layout.nextId) && layout.stores == loaded.stores
      ensures forall id :: id in layout.registry <==> id in loaded.registry || id in loaded.stores[0]
      ensures forall id :: id in layout.registry ==>
                layout.registry[id] == if id in loaded.registry then loaded.registry[id] else [0]
    {
      var next := RaiseNext(loaded.stores[0].Keys, loaded.nextId);
      AdoptedMirrored(loaded, next);
      this.maxVolumeSize, this.cache := maxVolumeSize, cache;
      this.replicationFactor := if replicationFactor < 1 then 1 else replicationFactor;
      layout, active, issued := Adopted(loaded, next), None, earlier;
      new;
      forall i | 0 <= i < |issued| ensures Answered(layout, issued[i]) {
        assert Answered(loaded, earlier[i]);
      }
    }

    static method RaiseNext(ids: set<nat>, floor: nat) returns (next: nat)
      ensures Fresh(ids, floor, next)
    {
      next := floor;
      var todo := ids;
      while todo != {}
        invariant todo <= ids && floor <= next && (next == floor || next - 1 in ids)
        invariant forall id :: id in ids && id !in todo ==> id < next
        decreases todo
      {
        var id :| id in todo;
        if id >= next {
          next := id + 1;
        }
        todo := todo - {id};
      }
    }

    /** There is an active group and its local volume is below the size limit. */
    predicate HasRoom()
      reads this
      requires layout.stores != []
    {
      && active.Some? && active.value in layout.stores[0]
      && |layout.stores[0][active.value]| < maxVolumeSize
    }

    /** The active group while its local volume has room, else a new one. */
    method GetOrCreateGroup() returns (g: nat)
      requires Valid()
      modifies this
      ensures Valid() && issued == old(issued) && g in layout.registry && active == Some(g)
      ensures FirstBackends(layout, g, replicationFactor) && layout.stores == old(layout).stores
      ensures old(active) == Some(g) ==>
                layout == old(layout) && g in layout.stores[0] && |layout.stores[0][g]| < maxVolumeSize
      ensures old(active) != Some(g) ==>
                && g == old(layout).nextId == layout.nextId - 1 && g !in old(layout).registry
                && layout.registry == old(layout).registry[g := layout.registry[g]]
                && (old(active).Some? && old(active).value in layout.stores[0] ==>
                      |layout.stores[0][old(active).value]| >= maxVolumeSize)
    {
      if HasRoom() {
        return active.value;
      }
      g := layout.nextId;
      NewGroupMirrored(layout, replicationFactor);
      StillAnswered(layout, NewGroup(layout, replicationFactor), issued);
      layout := NewGroup(layout, replicationFactor);
      active := Some(g);
    }

    /** Appends the blob on every member of the group; the address names the primary's offset. */
    method Write(data: Blob) returns (addr: Addr)
      requires Valid() && |data| < TWO_63
      modifies this
      ensures Valid() && issued == old(issued) + [Issue(addr, data)]
      ensures addr.volumeId in layout.registry && active == Some(addr.volumeId)
      ensures FirstBackends(layout, addr.volumeId, replicationFactor) && AllHold(layout, addr, data)
      ensures replicationFactor > 1 && |layout.stores| > 1 ==>   // with the local backend down
                ReadRecord(FileOf(layout.stores[1], addr.volumeId), addr.offset, addr.size) == Some(data)
      ensures addr.volumeId == if old(HasRoom()) then old(active).value else old(layout).nextId
      ensures var ms := layout.registry[addr.volumeId];
              Written(old(layout).stores, layout.stores, ms, |ms|, addr.volumeId, data)
    {
      var g := GetOrCreateGroup();
      addr := WriteToGroup(g, data);
      SecondBackend(layout, addr, data, replicationFactor);
    }

    method WriteToGroup(g: nat, data: Blob) returns (addr: Addr)
      requires Valid() && g in layout.registry && |data| < TWO_63
      modifies this`layout, this`issued
      ensures Valid() && issued == old(issued) + [Issue(addr, data)] && addr.volumeId == g
      ensures layout == old(layout).(stores := layout.stores) && AllHold(layout, addr, data)
      ensures var ms := layout.registry[g]; Written(old(layout).stores, layout.stores, ms, |ms|, g, data)
    {
      assert Group(layout, g);
      var ms := layout.registry[g];
      addr := Addr(g, |FileOf(layout.stores[ms[0]], g)|, |data|);
      var stores := WriteMembers(layout.stores, ms, g, data);
      WriteMirrored(layout, stores, g, data);
      WrittenEverywhere(layout, stores, g, data);
      StillAnswered(layout, layout.(stores := stores), issued);
      layout := layout.(stores := stores);
      issued := issued + [Issue(addr, data)];
    }

    static method WriteMembers(stores0: seq<Store>, ms: seq<nat>, g: nat, data: Blob) returns (stores: seq<Store>)
      requires Distinct(ms) && forall i :: 0 <= i < |ms| ==> ms[i] < |stores0|
      ensures Written(stores0, stores, ms, |ms|, g, data)
    {
      stores := stores0;
      for k := 0 to |ms|
        invariant Written(stores0, stores, ms, k, g, data)
      {
        assert ms[..k + 1] == ms[..k] + [ms[k]];
        stores := stores[ms[k] := AppendTo(stores[ms[k]], g, data)];
      }
    }

    /** Tries the cache, then the members in order; `up` says which backends answer. */
    method Read(addr: Addr, up: set<nat>) returns (r: Option<Blob>)
      requires Valid()
      modifies cache
      ensures Valid()
      ensures r.Some? ==> r == Stored(layout, addr)
      ensures r.Some? && cache != null && addr.size <= cache.maxBytes ==> addr in cache.items
      ensures addr.volumeId in layout.registry && (exists m :: m in layout.registry[addr.volumeId] && m in up) ==>
                r == Stored(layout, addr)
      ensures addr.volumeId !in layout.registry && 0 in up ==> r == Stored(layout, addr)
      ensures addr.volumeId in layout.registry && (exists m :: m in layout.registry[addr.volumeId] && m in up) ==>
                forall i :: 0 <= i < |issued| && issued[i].addr == addr ==> r == Some(issued[i].data)
    {
      assert forall i :: 0 <= i < |issued| ==> Answered(layout, issued[i]);
      if cache != null {
        r := cache.Get(addr);
        if r.Some? {
          return;
        }
      }
      r := ReadMembers(addr, up);
      if r.Some? && cache != null {
        cache.Set(addr, r.value);
      }
    }

    method ReadMembers(addr: Addr, up: set<nat>) returns (r: Option<Blob>)
      requires Mirrored(layout)
      ensures r.Some? ==> r == Stored(layout, addr) && |r.value| == addr.size
      ensures addr.volumeId in layout.registry && (exists m :: m in layout.registry[addr.volumeId] && m in up) ==>
                r == Stored(layout, addr)
      ensures addr.volumeId !in layout.registry && 0 in up ==> r == Stored(layout, addr)
    {
      var g := addr.volumeId;
      if g !in layout.registry {
        if 0 !in up {
          return None;
        }
        return ReadRecord(FileOf(layout.stores[0], g), addr.offset, addr.size);
      }
      assert Group(layout, g);
      var ms := layout.registry[g];
      r := None;
      for i := 0 to |ms|
        invariant r.None?
        invariant (exists j :: 0 <= j < i && ms[j] in up) ==> Stored(layout, addr).None?
      {
        if ms[i] in up {
          r := ReadRecord(FileOf(layout.stores[ms[i]], g), addr.offset, addr.size);
          if r.Some? {
            return;
          }
        }
      }
    }
  }

  /** An issued address belongs to a registered group and still yields its blob. */
  ghost predicate Answered(l: Layout, i: Issue)
    requires Mirrored(l)
  {
    i.addr.volumeId in l.registry && Stored(l, i.addr) == Some(i.data)
  }

  /** A layout that loses no group and no stored blob answers every address the old one answered. */
  lemma StillAnswered(l: Layout, l': Layout, issued: seq<Issue>)
    requires Mirrored(l) && Mirrored(l') && l.registry.Keys <= l'.registry.Keys
    requires forall a :: Stored(l, a).Some? ==> Stored(l', a) == Stored(l, a)
    requires forall i :: 0 <= i < |issued| ==> Answered(l, issued[i])
    ensures forall i :: 0 <= i < |issued| ==> Answered(l', issued[i])
  {
    forall i | 0 <= i < |issued| ensures Answered(l', issued[i]) {
      assert Answered(l, issued[i]);
    }
  }

  /** Failover: with identical files, any surviving member answers an address as the primary would. */
  lemma AnyMemberAnswers(l: Layout, g: nat, m: nat, offset: nat, size: nat)
    requires Mirrored(l) && g in l.registry && m in l.registry[g]
    ensures Group(l, g)
    ensures ReadRecord(FileOf(l.stores[m], g), offset, size) == Stored(l, Addr(g, offset, size))
  {
    assert Group(l, g);
  }

  // ---- Groups in which writes fail ----

  /** What one member did with a record: how many of its bytes reached the file, and whether success was reported. */
  datatype Reply = Reply(ok: bool, bytes: nat)

  /** A write to the group. When the primary, member 0, fails, the others are not asked. */
  datatype GroupWrite = GroupWrite(data: Blob, replies: seq<Reply>)

  /** The files of a group's members, and where the primary believes its file ends: the offset of the next address. */
  datatype Copies = Copies(end: nat, files: seq<seq<Byte>>)

  ghost predicate Plausible(n: nat, w: GroupWrite) {
    && |w.replies| == n
    && forall i :: 0 <= i < n ==>
         w.replies[i].bytes <= |Record(w.data)| && (w.replies[i].ok ==> w.replies[i].bytes == |Record(w.data)|)
  }

  ghost function ApplyWrite(c: Copies, w: GroupWrite): Copies
    requires c.files != [] && Plausible(|c.files|, w)
  {
    if w.replies[0].ok then
      Copies(c.end + |Record(w.data)|,
             seq(|c.files|, i requires 0 <= i < |c.files| => c.files[i] + Record(w.data)[..w.replies[i].bytes]))
    else
      c.(files := c.files[0 := c.files[0] + Record(w.data)[..w.replies[0].bytes]])
  }

  /** The group since it was made; no later run of the program writes to it again. */
  ghost function ApplyWrites(n: nat, ws: seq<GroupWrite>): (c: Copies)
    requires n > 0 && forall i :: 0 <= i < |ws| ==> Plausible(n, ws[i])
    ensures |c.files| == n
  {
    if ws == [] then Copies(0, seq(n, _ => []))
    else ApplyWrite(ApplyWrites(n, ws[..|ws| - 1]), ws[|ws| - 1])
  }

  /** The primary failed before its first byte, or it succeeded and all bytes reached every other member. */
  ghost predicate Unharmed(n: nat, w: GroupWrite)
    requires n > 0 && Plausible(n, w)
  {
    if w.replies[0].ok then forall i :: 0 <= i < n ==> w.replies[i].bytes == |Record(w.data)| else w.replies[0].bytes == 0
  }

  ghost predicate InStep(c: Copies) { forall i :: 0 <= i < |c.files| ==> |c.files[i]| == c.end }

  /** The primary is never short of its belief, nor another member ahead of it; so no later write makes up for a failure. */
  ghost predicate Bounded(c: Copies) {
    c.files != [] && c.end <= |c.files[0]| && forall i :: 0 < i < |c.files| ==> |c.files[i]| <= c.end
  }

  lemma InStepAfter(c: Copies, w: GroupWrite)
    requires Bounded(c) && Plausible(|c.files|, w)
    ensures Bounded(ApplyWrite(c, w)) && (InStep(ApplyWrite(c, w)) <==> InStep(c) && Unharmed(|c.files|, w))
  {
    var c', n := ApplyWrite(c, w), |Record(w.data)|;
    if w.replies[0].ok {
      assert forall i :: 0 <= i < |c.files| ==> |c'.files[i]| == |c.files[i]| + w.replies[i].bytes;
      if InStep(c') {
        forall i | 0 <= i < |c.files| ensures |c.files[i]| == c.end && w.replies[i].bytes == n {
          assert |c'.files[i]| == c'.end;
        }
      }
    } else {
      assert |c'.files[0]| == |c.files[0]| + w.replies[0].bytes;
      assert forall i :: 0 < i < |c.files| ==> c'.files[i] == c.files[i];
      if InStep(c') {
        assert |c'.files[0]| == c'.end;
        forall i | 0 <= i < |c.files| ensures |c.files[i]| == c.end {
          assert |c'.files[i]| == c'.end;
        }
      }
    }
  }

  lemma {:induction false} InStepIffUnharmed(n: nat, ws: seq<GroupWrite>)
    requires n > 0 && forall i :: 0 <= i < |ws| ==> Plausible(n, ws[i])
    ensures Bounded(ApplyWrites(n, ws))
    ensures InStep(ApplyWrites(n, ws)) <==> forall i :: 0 <= i < |ws| ==> Unharmed(n, ws[i])
  {
    if ws != [] {
      var rest, last := ws[..|ws| - 1], ws[|ws| - 1];
      InStepIffUnharmed(n, rest);
      InStepAfter(ApplyWrites(n, rest), last);
      assert (forall i :: 0 <= i < |ws| ==> Unharmed(n, ws[i])) <==>
             (forall i :: 0 <= i < |rest| ==> Unharmed(n, rest[i])) && Unharmed(n, last) by {
        assert forall i :: 0 <= i < |rest| ==> rest[i] == ws[i];
      }
    }
  }

  /** Every next address is answered by each member alone, once the write it is for has reached that member. */
  ghost predicate AllAnswer(c: Copies) {
    forall i :: 0 <= i < |c.files| ==> NextReadsBack(Volume(0, c.files[i], c.end))
  }

  lemma AllAnswerIffInStep(c: Copies)
    ensures AllAnswer(c) <==> InStep(c)
  {
    forall i | 0 <= i < |c.files| ensures NextReadsBack(Volume(0, c.files[i], c.end)) <==> |c.files[i]| == c.end {
      WritesReadBackIffEndIsSize(Volume(0, c.files[i], c.end));
    }
  }

  /**
   Over every history of a group: every next address is answered by every member alone, if and only if no write to the
   group failed after the primary's first byte and before the last member's last.
   */
  lemma MembersAnswerIffUnharmed(n: nat, ws: seq<GroupWrite>)
    requires n > 0 && forall i :: 0 <= i < |ws| ==> Plausible(n, ws[i])
    ensures AllAnswer(ApplyWrites(n, ws)) <==> forall i :: 0 <= i < |ws| ==> Unharmed(n, ws[i])
  {
    InStepIffUnharmed(n, ws);
    AllAnswerIffInStep(ApplyWrites(n, ws));
  }

  /** One member out of reach for one write is enough, whatever came before. */
  lemma MissedWriteSilences(n: nat, ws: seq<GroupWrite>, i: nat)
    requires n > 0 && (forall j :: 0 <= j < |ws| ==> Plausible(n, ws[j])) && ws != []
    requires i < n && var w := ws[|ws| - 1]; Plausible(n, w) && w.replies[0].ok && w.replies[i].bytes == 0
    ensures !AllAnswer(ApplyWrites(n, ws))
  {
    MembersAnswerIffUnharmed(n, ws);
    assert !Unharmed(n, ws[|ws| - 1]);
  }
}
