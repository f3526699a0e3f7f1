/** The byte-bounded read cache: most recently used first, evicted from the back. */
module LruCache {
  import opened Bytes
  import opened Volumes

  function SizeOf(items: map<Addr, Blob>, a: Addr): nat { if a in items then |items[a]| else 0 }

  /** Bytes held by the listed entries. */
  function Total(order: seq<Addr>, items: map<Addr, Blob>): nat {
    if order == [] then 0 else Total(order[..|order| - 1], items) + SizeOf(items, order[|order| - 1])
  }

  ghost predicate Unique(order: seq<Addr>) {
    order == [] || (Unique(order[..|order| - 1]) && order[|order| - 1] !in order[..|order| - 1])
  }

  /** The list without one address. */
  function Without(order: seq<Addr>, addr: Addr): seq<Addr> {
    if order == [] then []
    else if order[|order| - 1] == addr then Without(order[..|order| - 1], addr)
    else Without(order[..|order| - 1], addr) + [order[|order| - 1]]
  }

  lemma {:induction false} WithoutOne(order: seq<Addr>, items: map<Addr, Blob>, addr: Addr)
    requires Unique(order)
    ensures Unique(Without(order, addr))
    ensures forall a :: a in Without(order, addr) <==> a in order && a != addr
    ensures Total(order, items) == Total(Without(order, addr), items) + if addr in order then SizeOf(items, addr) else 0
  {
    if order != [] {
      var init, last := order[..|order| - 1], order[|order| - 1];
      WithoutOne(init, items, addr);
      assert order == init + [last];
      var rest := Without(init, addr);
      if last != addr {
        assert (rest + [last])[..|rest|] == rest;
      }
    }
  }

  /** Taking an address out leaves the rest in its order. */
  lemma {:induction false} WithoutKeepsOrder(a: seq<Addr>, addr: Addr, b: seq<Addr>)
    requires addr !in a && addr !in b
    ensures Without(a + [addr] + b, addr) == a + b
    decreases |b|
  {
    var order := a + [addr] + b;
    if b == [] {
      assert order[..|order| - 1] == a && a + b == a;
      WithoutAbsent(a, addr);
    } else {
      var init, last := b[..|b| - 1], b[|b| - 1];
      assert order[..|order| - 1] == a + [addr] + init && order[|order| - 1] == last;
      WithoutKeepsOrder(a, addr, init);
      assert a + init + [last] == a + b;
    }
  }

  lemma {:induction false} WithoutAbsent(order: seq<Addr>, addr: Addr)
    requires addr !in order
    ensures Without(order, addr) == order
  {
    if order != [] {
      WithoutAbsent(order[..|order| - 1], addr);
    }
  }

  /** Where a listed address stands; the other addresses do not repeat it. */
  lemma {:induction false} Split(order: seq<Addr>, addr: Addr) returns (a: seq<Addr>, b: seq<Addr>)
    requires Unique(order) && addr in order
    ensures order == a + [addr] + b && addr !in a && addr !in b
  {
    var init, last := order[..|order| - 1], order[|order| - 1];
    assert order == init + [last];
    if last == addr {
      a, b := init, [];
    } else {
      var c;
      a, c := Split(init, addr);
      b := c + [last];
    }
  }

  /** `order'` is `order` with the address moved to the front: the rest stays in its order. */
  ghost predicate MovedToFront(order: seq<Addr>, addr: Addr, order': seq<Addr>) {
    exists a, b :: order == a + [addr] + b && order' == [addr] + a + b
  }

  lemma FrontAndRest(order: seq<Addr>, addr: Addr)
    requires Unique(order) && addr in order
    ensures MovedToFront(order, addr, [addr] + Without(order, addr))
  {
    var a, b := Split(order, addr);
    WithoutKeepsOrder(a, addr, b);
    assert [addr] + (a + b) == [addr] + a + b;
  }

  lemma {:induction false} Front(order: seq<Addr>, items: map<Addr, Blob>, addr: Addr)
    requires Unique(order) && addr !in order
    ensures Unique([addr] + order)
    ensures Total([addr] + order, items) == SizeOf(items, addr) + Total(order, items)
  {
    if order == [] {
      assert [addr] + order == [addr] && [addr][..0] == [];
    } else {
      var init, last := order[..|order| - 1], order[|order| - 1];
      assert order == init + [last];
      Front(init, items, addr);
      assert ([addr] + order)[..|order|] == [addr] + init;
    }
  }

  lemma {:induction false} TotalSame(order: seq<Addr>, items: map<Addr, Blob>, items': map<Addr, Blob>)
    requires forall a :: a in order ==> SizeOf(items, a) == SizeOf(items', a)
    ensures Total(order, items) == Total(order, items')
  {
    if order != [] {
      TotalSame(order[..|order| - 1], items, items');
    }
  }

  /** `k` entries from the front fit into `room`, and no more do. */
  ghost predicate Kept(order: seq<Addr>, items: map<Addr, Blob>, room: int, k: int) {
    && 0 <= k <= |order|
    && Total(order[..k], items) <= room
    && (k < |order| ==> Total(order[..k + 1], items) > room)
  }

  /** The map restricted to the listed addresses. */
  ghost predicate Restricts(items': map<Addr, Blob>, items: map<Addr, Blob>) {
    forall a :: a in items' ==> a in items && items'[a] == items[a]
  }

  class LruCache {
    const maxBytes: Uint64
    var curBytes: nat
    var order: seq<Addr>            // front is most recently used
    var items: map<Addr, Blob>

    /** List and map hold the same addresses, once each, and the byte count is exact. */
    ghost predicate Valid()
      reads this
    {
      Unique(order) && (forall a :: a in order <==> a in items) && curBytes == Total(order, items)
    }

    constructor (maxBytes: Uint64)
      ensures Valid() && items == map[] && curBytes == 0 && this.maxBytes == maxBytes
    {
      this.maxBytes := maxBytes;
      curBytes, order, items := 0, [], map[];
    }

    /** A cache of no bytes is no cache. */
    static method New(maxBytes: Uint64) returns (c: LruCache?)
      ensures c == null <==> maxBytes == 0
      ensures c != null ==> fresh(c) && c.Valid() && c.items == map[] && c.curBytes == 0 && c.maxBytes == maxBytes
    {
      if maxBytes == 0 {
        return null;
      }
      c := new LruCache(maxBytes);
    }

    /** A hit moves the entry to the front. */
    method Get(addr: Addr) returns (r: Option<Blob>)
      requires Valid()
      modifies this`order
      ensures Valid()
      ensures r == if addr in items then Some(items[addr]) else None
      ensures if addr in items then MovedToFront(old(order), addr, order) else order == old(order)
    {
      if addr !in items {
        return None;
      }
      MoveToFront(addr);
      r := Some(items[addr]);
    }

    method MoveToFront(addr: Addr)
      requires Valid() && addr in items
      modifies this`order
      ensures Valid() && MovedToFront(old(order), addr, order)
    {
      FrontAndRest(order, addr);
      WithoutOne(order, items, addr);
      Front(Without(order, addr), items, addr);
      order := [addr] + Without(order, addr);
    }

    /** Drops the entry at the back, if there is one. */
    method EvictLru()
      requires Valid()
      modifies this
      ensures Valid()
      ensures old(order) == [] ==> order == [] && items == old(items)
      ensures old(order) != [] ==> order == old(order)[..|old(order)| - 1]
                                   && items == old(items) - {old(order)[|old(order)| - 1]}
    {
      if order == [] {
        return;
      }
      var init, victim := order[..|order| - 1], order[|order| - 1];
      assert order == init + [victim];
      TotalSame(init, items, items - {victim});
      curBytes := curBytes - |items[victim]|;
      order := init;
      items := items - {victim};
    }

    /** Evicts from the back until `size` more bytes fit, and not one entry more. Always ends. */
    method MakeRoom(size: nat) returns (ghost k: nat)
      requires Valid() && size <= maxBytes
      modifies this
      ensures Valid() && curBytes + size <= maxBytes
      ensures Kept(old(order), old(items), maxBytes - size, k) && order == old(order)[..k]
      ensures Restricts(items, old(items))
    {
      k := |order|;
      assert order[..k] == order;
      while curBytes + size > maxBytes
        invariant Valid() && k <= |old(order)| && order == old(order)[..k]
        invariant Restricts(items, old(items))
        invariant k < |old(order)| ==> Total(old(order)[..k + 1], old(items)) > maxBytes - size
        decreases |order|
      {
        TotalSame(order, items, old(items));
        k := k - 1;
        assert old(order)[..k + 1] == order && order[..k] == old(order)[..k];
        EvictLru();
      }
      TotalSame(order, items, old(items));
    }

    /**
     Inserts or refreshes a blob. An insertion evicts exactly as many entries from the back as it must: what stays is
     the longest prefix of the list that leaves room. A blob that can never fit is ignored. A bounded cache stays
     bounded unless a refresh puts a longer blob in place of one already held.
     */
    method Set(addr: Addr, data: Blob)
      requires Valid()
      modifies this
      ensures Valid()
      ensures |data| > maxBytes ==> order == old(order) && items == old(items)
      ensures |data| <= maxBytes ==> addr in items && items[addr] == data
      ensures |data| <= maxBytes && addr in old(items) ==>
                MovedToFront(old(order), addr, order) && items == old(items)[addr := data]
      ensures |data| <= maxBytes && addr !in old(items) ==>
                exists k :: Kept(old(order), old(items), maxBytes - |data|, k) && order == [addr] + old(order)[..k]
      ensures forall a :: a in items && a != addr ==> a in old(items) && items[a] == old(items)[a]
      ensures old(curBytes) <= maxBytes ==>
                (curBytes <= maxBytes <==>
                 !(|data| <= maxBytes && addr in old(items) && old(curBytes) - |old(items)[addr]| + |data| > maxBytes))
    {
      if |data| > maxBytes {
        return;
      }
      if addr in items {
        MoveToFront(addr);
        Refresh(addr, data);
      } else {
        ghost var k := MakeRoom(|data|);
        Insert(addr, data);
      }
    }

    method Refresh(addr: Addr, data: Blob)
      requires Valid() && addr in items
      modifies this`curBytes, this`items
      ensures Valid() && items == old(items)[addr := data]
      ensures curBytes == old(curBytes) - |old(items)[addr]| + |data|
    {
      Resized(order, items, addr, data);
      curBytes := curBytes - |items[addr]|;
      items := items[addr := data];
      curBytes := curBytes + |data|;
    }

    method Insert(addr: Addr, data: Blob)
      requires Valid() && addr !in items
      modifies this
      ensures Valid() && order == [addr] + old(order) && items == old(items)[addr := data]
      ensures curBytes == old(curBytes) + |data|
    {
      TotalSame(order, items, items[addr := data]);
      Front(order, items[addr := data], addr);
      order := [addr] + order;
      items := items[addr := data];
      curBytes := curBytes + |data|;
    }
  }

  /** Replacing one blob changes the total by the difference of the lengths. */
  lemma Resized(order: seq<Addr>, items: map<Addr, Blob>, addr: Addr, data: Blob)
    requires Unique(order) && addr in order && addr in items
    ensures Total(order, items[addr := data]) == Total(order, items) - |items[addr]| + |data|
    ensures |items[addr]| <= Total(order, items)
  {
    var rest := Without(order, addr);
    WithoutOne(order, items, addr);
    WithoutOne(order, items[addr := data], addr);
    TotalSame(rest, items, items[addr := data]);
  }
}
