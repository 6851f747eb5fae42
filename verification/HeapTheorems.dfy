/** The guarantees of kmalloc and kfree over single calls and over whole runs. */
module HeapTheorems {
  import opened Pages
  import opened Heap
  import opened HeapInvariant
  import opened HeapOperations
  import opened HeapCalls
  import opened HeapSupply

  /** o belongs to a caller of kmalloc: it is allocated and no slab uses it for itself. */
  ghost predicate User(ps: Pools, o: Obj) {
    Live(ps, o) && !IsMeta(ps, o)
  }

  /** A successful kmalloc hands out one new object and takes none away. */
  ghost predicate Allocated(h: Heap, h': Heap, o: Obj) {
    && !Live(h.pools, o)
    && (forall x :: User(h'.pools, x) <==> User(h.pools, x) || x == o)
    && (forall x :: Live(h.pools, x) ==> Live(h'.pools, x))
  }

  /** A kfree takes one object from the callers; the heap gives up nothing but own header and
      bitmap objects with it. */
  ghost predicate Freed(h: Heap, h': Heap, o: Obj) {
    && User(h.pools, o) && !Live(h'.pools, o)
    && (forall x :: User(h'.pools, x) <==> User(h.pools, x) && x != o)
    && (forall x :: Live(h'.pools, x) ==> Live(h.pools, x))
  }

  lemma GrowLargeOk(h: Heap, i: nat)
    requires Inv(h) && LARGE <= i < CLASSES && GetNewSlab(h, i).1.Some?
    ensures var (h1, s) := GetNewSlab(h, i);
      var (h', r) := Grow(h1, i, s.value);
      && Inv(h') && Balance(h') == Balance(h) && Keeps(h, h')
      && r.Some? && r.value.cls == i && Allocated(h, h', r.value)
  {
    hide *;
    GetNewSlabOk(h, i);
    var (h1, r1) := GetNewSlab(h, i);
    var s := r1.value;
    GrowOk(h1, i, s);
    var (h', r) := Grow(h1, i, s);
    GrowBalance(h1, i, s);
    InvParts(h, h1, h');
    LinkableKeeps(h1.pools, i, s);
    GrowAllocates(h, h1, h', s, r.value, i);
    GrowLargeKeeps(h, h1, h', s.page);
  }

  lemma InvParts(h: Heap, h1: Heap, h': Heap)
    requires Inv(h) && Inv(h1) && Inv(h')
    ensures PoolsInv(h.pools) && PoolsInv(h1.pools) && PoolsInv(h'.pools)
  {
  }

  lemma LinkableKeeps(ps: Pools, i: nat, s: Slab)
    requires LARGE <= i && Linkable(ps, i, s) && s.header.Kept? && s.colorMap.Kept?
    ensures forall x :: KeptBy(s, x) ==> x.cls < LARGE
  {
    MapClassIsSmall(i);
  }

  lemma GrowBalance(h: Heap, i: nat, s: Slab)
    requires Inv(h) && Linkable(h.pools, i, s) && s.count > 0 && PageOk(h.mem, s.page)
    requires !s.header.Static? && !s.colorMap.Static?
    ensures Balance(Grow(h, i, s).0) == Balance(h) + 1
  {
    GrowOk(h, i, s);
    var h' := Grow(h, i, s).0;
    SlabCountPut(h.pools, i, h'.pools[i]);
    assert h'.pools == h.pools[i := h'.pools[i]];
  }

  lemma GrowLargeKeeps(h: Heap, h1: Heap, h': Heap, page: nat)
    requires Keeps(h, h1) && h'.mem == h1.mem
    requires page < |h.mem.used| && h.mem.used[page] ==> IsSlabPage(h.pools, page)
    requires forall p: nat :: IsSlabPage(h'.pools, p) <==> IsSlabPage(h1.pools, p) || p == page
    ensures Keeps(h, h')
  {
  }

  /** Header and bitmap objects become the property of the new slab, so that the callers see
      exactly the requested object. */
  lemma GrowAllocates(h: Heap, h1: Heap, h': Heap, s: Slab, o: Obj, i: nat)
    requires PoolsInv(h.pools) && PoolsInv(h1.pools) && PoolsInv(h'.pools) && o.cls == i >= LARGE
    requires forall x :: KeptBy(s, x) ==> x.cls < LARGE
    requires forall x :: Live(h1.pools, x) <==> Live(h.pools, x) || KeptBy(s, x)
    requires forall x :: KeptBy(s, x) ==> !Live(h.pools, x)
    requires forall x :: IsMeta(h1.pools, x) <==> IsMeta(h.pools, x)
    requires !Live(h1.pools, o)
    requires forall x :: Live(h'.pools, x) <==> Live(h1.pools, x) || x == o
    requires forall x :: IsMeta(h'.pools, x) <==> IsMeta(h1.pools, x) || KeptBy(s, x)
    ensures Allocated(h, h', o)
  {
    if IsMeta(h.pools, o) {
      MetaIsLive(h.pools, o);
    }
  }

  /** kmalloc of a class: NULL only when the pool is full and cannot grow, and then no object is
      gained or lost; otherwise one new object of that class. */
  lemma MallocClassOk(h: Heap, i: nat)
    requires Inv(h) && i < CLASSES
    ensures var (h', r) := MallocClass(h, i);
      && Inv(h') && Balance(h') == Balance(h) && Keeps(h, h')
      && (r.None? <==> Exhausted(h, i))
      && match r
         case None => SameObjects(h, h')
         case Some(o) => o.cls == i && Allocated(h, h', o)
  {
    hide Live, IsMeta, GetPage, Inv, Exhausted;
    assert In(h.pools, i, 0);
    MallocSupply(h, i);
    if i < LARGE {
      SmallMallocOk(h, i);
      var (h', r) := SmallMalloc(h, i);
      if r.Some? {
        HeaderIsUsers(h, h', r.value);
      }
    } else if h.pools[i].free != 0 {
      var k := FindSlab(h.pools[i].ring, 0);
      PoolHasRoom(h, i);
      SlabMallocOk(h, i, k);
      var (h', r) := SlabMalloc(h, i, k);
      SlabCountPut(h.pools, i, h'.pools[i]);
      HeaderIsUsers(h, h', r.value);
    } else if i != NO_GROWTH {
      GetNewSlabOk(h, i);
      if GetNewSlab(h, i).1.Some? {
        GrowLargeOk(h, i);
      }
    }
  }

  /** Returning a slab of the large classes: its page, bitmap and header all come back, and no
      other large pool notices. */
  lemma DestroyOk(h: Heap, i: nat, k: nat)
    requires Inv(h) && LARGE <= i < CLASSES && In(h.pools, i, k) && k != 0 && At(h.pools, i, k).using == 0
    ensures var h' := Destroy(h, i, k);
      && Inv(h') && Balance(h') == Balance(h) && Keeps(h, h')
      && LargeSame(Unlink(h.pools, i, k), h'.pools)
      && (forall x :: Live(h'.pools, x) <==> Live(h.pools, x) && !KeptBy(At(h.pools, i, k), x))
      && (forall x :: IsMeta(h'.pools, x) <==> IsMeta(h.pools, x) && !KeptBy(At(h.pools, i, k), x))
  {
    hide Inv, Live, IsMeta, Keeps, PageOk, IsSlabPage, Balance, SmallFree, PutPage, Shaped;
    var s := At(h.pools, i, k);
    OwnObjects(h, i, k);
    UnlinkOk(h, i, k);
    var h0 := h.(pools := Unlink(h.pools, i, k));
    SmallFreeOk(h0, s.colorMap.obj);
    var h1 := SmallFree(h0, s.colorMap.obj);
    PageStays(h0, h1, s.page);
    ReturnPage(h1, s.page);
    var h2 := h1.(mem := PutPage(h1.mem, s.page));
    SmallFreeOk(h2, s.header.obj);
    SlabPageIs(h.pools, i, k);
    KeepsTrans(h, h0, h1);
    KeepsAllBut(h, h1, h2, s.page);
    KeepsTrans(h, h2, SmallFree(h2, s.header.obj));
  }

  lemma SlabPageIs(ps: Pools, i: nat, k: nat)
    requires In(ps, i, k)
    ensures IsSlabPage(ps, At(ps, i, k).page)
  {
  }

  /** Giving back what was a slab's page is nobody else's concern. */
  lemma KeepsAllBut(h: Heap, h1: Heap, h2: Heap, p: nat)
    requires Keeps(h, h1) && IsSlabPage(h.pools, p) && p < |h1.mem.used|
    requires h2.pools == h1.pools && SamePlan(h1.mem, h2.mem) && h2.mem.used == h1.mem.used[p := false]
    ensures Keeps(h, h2)
  {
  }

  lemma PageStays(h: Heap, h': Heap, p: nat)
    requires Keeps(h, h') && PageOk(h.mem, p) && !IsSlabPage(h.pools, p)
    ensures PageOk(h'.mem, p) && !IsSlabPage(h'.pools, p)
  {
    SamePlanZoned(h.mem, h'.mem, p);
  }

  /** Header and bitmap of a large slab are two different live objects of the small pools. */
  lemma OwnObjects(h: Heap, i: nat, k: nat)
    requires Inv(h) && LARGE <= i < CLASSES && In(h.pools, i, k) && k != 0
    ensures var s := At(h.pools, i, k);
      && s.header.Kept? && s.colorMap.Kept? && s.header != s.colorMap
      && Live(h.pools, s.header.obj) && Live(h.pools, s.colorMap.obj)
      && s.header.obj.cls < LARGE && s.colorMap.obj.cls < LARGE
  {
    var ps := h.pools;
    MapClassIsSmall(i);
    assert SlabOk(i, k, At(ps, i, k));
    assert Ref(ps, i, k, true).Kept? && Ref(ps, i, k, false).Kept?;
    assert Live(ps, Ref(ps, i, k, true).obj) && Live(ps, Ref(ps, i, k, false).obj);
  }

  // ---------------------------------------------------------------- kfree

  lemma FreeAtOk(h: Heap, i: nat, k: nat, j: nat)
    requires Inv(h) && i < CLASSES && In(h.pools, i, k) && Releasable(h.pools, i, k, j)
    ensures var h' := FreeAt(h, i, k, j);
      && Inv(h') && Balance(h') == Balance(h) && Keeps(h, h')
      && Freed(h, h', Obj(i, At(h.pools, i, k).page, j))
  {
    var o := Obj(i, At(h.pools, i, k).page, j);
    if i < LARGE {
      SmallFreeAtOk(h, i, k, j);
    } else {
      LiveHere(h, i, k, o);
      ClearOk(h, i, k, j);
      var ps := ClearSlot(h.pools, i, k, j);
      if ShouldShrink(ps, i, k) {
        ShrinkOk(h, Heap(ps, h.mem), i, k, o);
        KeepsTrans(h, Heap(ps, h.mem), FreeAt(h, i, k, j));
      }
    }
  }

  lemma LiveHere(h: Heap, i: nat, k: nat, o: Obj)
    requires Inv(h) && In(h.pools, i, k) && o.cls == i && Holds(At(h.pools, i, k), o)
    ensures Live(h.pools, o)
  {
  }

  /** Shrinking after the last object is gone keeps the callers' view: what disappears besides the
      freed object was the slab's own. */
  lemma ShrinkOk(h: Heap, h1: Heap, i: nat, k: nat, o: Obj)
    requires Inv(h) && Inv(h1) && LARGE <= i < CLASSES && In(h1.pools, i, k) && k != 0
    requires At(h1.pools, i, k).using == 0 && Balance(h1) == Balance(h)
    requires Removed(h, h1, o) && !IsMeta(h.pools, o)
    ensures Inv(Destroy(h1, i, k)) && Balance(Destroy(h1, i, k)) == Balance(h) && Keeps(h1, Destroy(h1, i, k))
    ensures Freed(h, Destroy(h1, i, k), o)
  {
    hide Inv, Balance, Live, IsMeta;
    DestroyOk(h1, i, k);
    OwnersAreMeta(h1, i, k);
    var h' := Destroy(h1, i, k);
    forall x
      ensures User(h'.pools, x) <==> User(h.pools, x) && x != o
      ensures Live(h'.pools, x) ==> Live(h.pools, x)
    {
      assert Live(h'.pools, x) <==> Live(h1.pools, x) && !KeptBy(At(h1.pools, i, k), x);
      assert IsMeta(h'.pools, x) <==> IsMeta(h1.pools, x) && !KeptBy(At(h1.pools, i, k), x);
      assert IsMeta(h1.pools, x) <==> IsMeta(h.pools, x);
      assert Live(h1.pools, x) <==> Live(h.pools, x) && x != o;
    }
  }

  lemma OwnersAreMeta(h: Heap, i: nat, k: nat)
    requires In(h.pools, i, k)
    ensures forall x :: KeptBy(At(h.pools, i, k), x) ==> IsMeta(h.pools, x)
  {
    forall x | KeptBy(At(h.pools, i, k), x)
      ensures IsMeta(h.pools, x)
    {
      assert Ref(h.pools, i, k, At(h.pools, i, k).header == Kept(x)) == Kept(x);
    }
  }

  /** What kfree expects of its caller: the address lies in no slab at all, or in an object that
      kmalloc handed to a caller and that is still allocated. */
  ghost predicate MayFree(h: Heap, address: int)
    requires Shaped(h.pools)
  {
    match Locate(h.pools, PageOf(address), 0, 0)
    case None => true
    case Some((i, k)) => Releasable(h.pools, i, k, SlotOf(address, i))
  }

  /** The object an address lies in. */
  function Target(h: Heap, address: int): Obj
    requires Locate(h.pools, PageOf(address), 0, 0).Some? && |h.pools| == CLASSES
  {
    var at := Locate(h.pools, PageOf(address), 0, 0).value;
    Obj(at.0, At(h.pools, at.0, at.1).page, SlotOf(address, at.0))
  }

  lemma KfreeOk(h: Heap, address: int)
    requires Inv(h) && MayFree(h, address)
    ensures var (h', ok) := Kfree(h, address);
      && Inv(h') && Balance(h') == Balance(h) && Keeps(h, h')
      && (ok <==> Locate(h.pools, PageOf(address), 0, 0).Some?)
      && if ok then Freed(h, h', Target(h, address)) else h' == h
  {
    match Locate(h.pools, PageOf(address), 0, 0)
    case None =>
    case Some((i, k)) => FreeAtOk(h, i, k, SlotOf(address, i));
  }

  /** Without a release of the slab the heap stays right exactly when a caller's object was freed. */
  lemma KeptExact(h: Heap, i: nat, k: nat, j: nat)
    requires Inv(h) && i < CLASSES && In(h.pools, i, k) && j < |At(h.pools, i, k).bits|
    requires !ShouldShrink(ClearSlot(h.pools, i, k, j), i, k)
    ensures Inv(FreeAt(h, i, k, j)) <==> Releasable(h.pools, i, k, j)
  {
    hide ShouldShrink, Live, IsMeta, ClearSlot;
    ReleaseExact(h.pools, i, k, j);
    if Releasable(h.pools, i, k, j) {
      FreeAtOk(h, i, k, j);
    }
  }

  /** When the slab is released, it does not matter which slot was given: its one object goes. */
  lemma ReleasedSame(h: Heap, i: nat, k: nat, j: nat, last: nat)
    requires Inv(h) && i < CLASSES && In(h.pools, i, k) && j < |At(h.pools, i, k).bits|
    requires last < |At(h.pools, i, k).bits| && ShouldShrink(ClearSlot(h.pools, i, k, j), i, k)
    ensures ShouldShrink(ClearSlot(h.pools, i, k, last), i, k)
    ensures FreeAt(h, i, k, j) == FreeAt(h, i, k, last)
  {
    var p, q := ClearSlot(h.pools, i, k, j), ClearSlot(h.pools, i, k, last);
    assert p[i].ring[..k] + p[i].ring[k + 1..] == q[i].ring[..k] + q[i].ring[k + 1..];
    assert Remove(p, i, k) == Remove(q, i, k);
  }

  /** The one object of a slab that a free would release. */
  lemma LastObject(h: Heap, i: nat, k: nat, j: nat) returns (last: nat)
    requires Inv(h) && i < CLASSES && In(h.pools, i, k) && j < |At(h.pools, i, k).bits|
    requires ShouldShrink(ClearSlot(h.pools, i, k, j), i, k)
    ensures last < At(h.pools, i, k).count <= |At(h.pools, i, k).bits| && At(h.pools, i, k).bits[last]
  {
    var s := At(h.pools, i, k);
    assert SlabOk(i, k, s);
    UsedExtremes(s.bits, s.count);
    last :| 0 <= last < s.count && s.bits[last];
  }

  /** If that object is a header or bitmap, the heap is broken. */
  lemma ReleasedMeta(h: Heap, i: nat, k: nat, last: nat)
    requires Inv(h) && i < CLASSES && In(h.pools, i, k) && last < At(h.pools, i, k).count <= |At(h.pools, i, k).bits|
    requires At(h.pools, i, k).bits[last] && ShouldShrink(ClearSlot(h.pools, i, k, last), i, k)
    requires IsMeta(h.pools, Obj(i, At(h.pools, i, k).page, last))
    ensures !Inv(FreeAt(h, i, k, last))
  {
    var ps := h.pools;
    var s := At(ps, i, k);
    var t, o := Released(s, last), Obj(i, s.page, last);
    assert SlabOk(i, k, s);
    MetaIsSmall(ps, o);
    ReleasedBits(s, last);
    PutMeta(ps, i, k, t, -1, o);
    PutLive(ps, i, k, t, -1, o);
    PutSame(ps, i, k, t, -1);
    var q := ClearSlot(ps, i, k, last);
    UnlinkLive(q, i, k, o);
    UnlinkMeta(q, i, k, o);
    if Inv(FreeAt(h, i, k, last)) {
      MetaIsLive(Remove(q, i, k), o);
      assert false;
    }
  }

  lemma MetaIsSmall(ps: Pools, o: Obj)
    requires PoolsInv(ps) && IsMeta(ps, o)
    ensures o.cls < LARGE
  {
    var i: nat, k: nat, b: bool :| In(ps, i, k) && Ref(ps, i, k, b) == Kept(o);
    assert SlabOk(i, k, At(ps, i, k));
    MapClassIsSmall(i);
  }

  /** What kfree does with any address in a slab. If the slab stays, the heap is right afterwards exactly
      when the address was a caller's object; freeing a clear slot makes the counters wrong. If the slab
      goes, its one object goes with it, whatever slot was given, and the heap is right exactly when that
      object was no header and no bitmap. */
  lemma KfreeExact(h: Heap, address: int)
    requires Inv(h) && Locate(h.pools, PageOf(address), 0, 0).Some?
    requires var (i, k) := Locate(h.pools, PageOf(address), 0, 0).value; SlotOf(address, i) < |At(h.pools, i, k).bits|
    ensures var (i, k) := Locate(h.pools, PageOf(address), 0, 0).value;
      var j, s, h' := SlotOf(address, i), At(h.pools, i, k), Kfree(h, address).0;
      if ShouldShrink(ClearSlot(h.pools, i, k, j), i, k)
      then exists last: nat :: last < s.count <= |s.bits| && s.bits[last] && h' == FreeAt(h, i, k, last)
                               && (Inv(h') <==> !IsMeta(h.pools, Obj(i, s.page, last)))
      else Inv(h') <==> MayFree(h, address)
  {
    hide Inv, Live, IsMeta, ClearSlot, FreeAt, ShouldShrink;
    var (i, k) := Locate(h.pools, PageOf(address), 0, 0).value;
    var j, s := SlotOf(address, i), At(h.pools, i, k);
    if ShouldShrink(ClearSlot(h.pools, i, k, j), i, k) {
      var last := LastObject(h, i, k, j);
      ReleasedSame(h, i, k, j, last);
      if IsMeta(h.pools, Obj(i, s.page, last)) {
        ReleasedMeta(h, i, k, last);
      } else {
        FreeAtOk(h, i, k, last);
      }
      assert last < s.count <= |s.bits| && s.bits[last] && Kfree(h, address).0 == FreeAt(h, i, k, last);
    } else {
      KeptExact(h, i, k, j);
    }
  }

  // ---------------------------------------------------------------- kmalloc

  /** kmalloc(size): too large a request and an exhausted pool give NULL and change no object; any
      other request gives one new object of the smallest class that is large enough. */
  lemma KmallocOk(h: Heap, size: nat)
    requires Inv(h)
    ensures var (h', r) := Kmalloc(h, size);
      && Inv(h') && Balance(h') == Balance(h) && Keeps(h, h')
      && (r.None? <==> size > 1048576 || (ClassOf(size, 0) < CLASSES && Exhausted(h, ClassOf(size, 0))))
      && match r
         case None => SameObjects(h, h')
         case Some(o) =>
           && o.cls < CLASSES && Size(o.cls) >= size && (forall c :: 0 <= c < o.cls ==> Size(c) < size)
           && Allocated(h, h', o)
  {
    if size <= 1048576 {
      LargestFits(size);
      ClassOfFits(size, 0);
      MallocClassOk(h, ClassOf(size, 0));
    }
  }

  // ---------------------------------------------------------------- addresses

  lemma SlotArithmetic(i: nat, j: nat)
    requires i < CLASSES && j < FullCount(i)
    ensures 0 <= j * Size(i) && j * Size(i) + Size(i) <= PAGE
    ensures j * Size(i) / Size(i) == j
    ensures j * Size(i) % Size(i) == 0
  {
  }

  lemma TailCounts(i: nat)
    requires i < LARGE
    ensures TailCount(i) == [65277, 32702, 16367, 8187, 4094][i]
  {
  }

  /** A small slab's objects end before its header. */
  lemma TailFits(i: nat)
    requires i < LARGE
    ensures TailCount(i) * Size(i) <= PAGE - HEADER - PAGE / Size(i) / 8
    ensures MapBytes(TailCount(i)) <= PAGE / Size(i) / 8
    ensures 0 < TailCount(i) <= FullCount(i)
    ensures (TailCount(i) + 1) * Size(i) > PAGE - HEADER - PAGE / Size(i) / 8
  {
    TailCounts(i);
    hide TailCount;
  }

  /** Masking an address to 2 MB and dividing the rest by the class size gives page and slot back. */
  lemma AddressDecodes(o: Obj)
    requires o.cls < CLASSES && o.slot < FullCount(o.cls)
    ensures PageOf(Addr(o)) == o.page && SlotOf(Addr(o), o.cls) == o.slot
    ensures PageAddr(o.page) <= Addr(o) && Addr(o) + Size(o.cls) <= PageAddr(o.page) + PAGE
  {
    SlotArithmetic(o.cls, o.slot);
  }

  /** Every object is aligned to the size of its class. */
  lemma Aligned(o: Obj)
    requires o.cls < CLASSES && o.slot < FullCount(o.cls)
    ensures Addr(o) % Size(o.cls) == 0
  {
    var s, q := Size(o.cls), PAGE / Size(o.cls);
    WholePages(o.cls);
    var n := PAGE_OFFSET / PAGE + o.page;
    assert Addr(o) == n * PAGE + o.slot * s;
    Regroup(n, q, s, o.slot);
    MultipleMod(n * q + o.slot, s);
  }

  lemma WholePages(i: nat)
    requires i < CLASSES
    ensures PAGE == PAGE / Size(i) * Size(i)
    ensures PAGE_OFFSET == PAGE_OFFSET / PAGE * PAGE
  {
  }

  lemma Regroup(n: int, q: int, s: int, j: int)
    ensures n * (q * s) + j * s == (n * q + j) * s
  {
  }

  lemma MultipleMod(q: int, s: nat)
    requires s > 0
    ensures q * s % s == 0
  {
    var n := q - q * s / s;
    assert n * s == q * s % s;
    if n >= 1 {
      AtLeastOne(n, s);
    } else if n <= -1 {
      AtLeastOne(-n, s);
    }
  }

  lemma AtLeastOne(n: int, s: nat)
    requires n >= 1
    ensures n * s >= s && (-n) * s == -(n * s)
  {
  }
}
