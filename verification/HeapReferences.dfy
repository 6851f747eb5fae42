/** References to the pages of the heap: every slab holds one reference to its page, and kfree drops the
    references of exactly the pages it gives back. */
module HeapReferences {
  import opened Options
  import opened Pages
  import opened PageReferences
  import opened Heap
  import opened HeapInvariant
  import opened HeapOperations
  import opened HeapCalls
  import opened HeapSupply
  import opened HeapTheorems
  import opened HeapSafety
  import opened HeapStart

  // ---------------------------------------------------------------- one page

  /** A page from the allocator is marked as mapped and as the kernel's, and has a reference. */
  lemma GetPageMeans(m: Memory) returns (z: nat)
    requires MemInv(m)
    ensures var (m', r) := GetPage(m);
      && SameLinks(m, m') && |m'.pages| == |m.pages|
      && match r
         case None => m' == m
         case Some(p) =>
           && z < |m.zones| && Described(m', p, z) && p < |m.pages|
           && m'.zones == m.zones[z := m.zones[z].(freeCount := m.zones[z].freeCount - 1,
                                                   usingCount := m.zones[z].usingCount + 1,
                                                   link := m.zones[z].link + (if m.pages[p].refs == 0 then 1 else 0))]
           && m' == m.(used := m'.used, zones := m'.zones, pages := m'.pages)
           && m'.pages[p].attribute == {Mapped, Flag.Kernel}
           && m'.pages[p].refs == (if m.pages[p].refs == 0 then 1 else m.pages[p].refs)
           && (forall i :: 0 <= i < |m.pages| && i != p ==> m'.pages[i] == m.pages[i])
  {
    hide MemInv, AllocPages, Table, SameLinks, InZone, PageInit;
    z := AllocOneMeans(m);
    var (m1, r) := AllocPages(m, ZoneNormal, 1);
    if r.Some? {
      InitMeans(m1, r.value, z, {Flag.Kernel});
      InitRest(m1, r.value, z, {Flag.Kernel});
      SameLinksTrans(m, m1, GetPage(m).0);
    }
  }

  lemma InitRest(m: Memory, i: nat, z: nat, flags: set<Flag>)
    requires Described(m, i, z)
    ensures var m' := PageInit(m, i, z, flags); m' == m.(zones := m'.zones, pages := m'.pages)
  {
  }

  lemma AllocOneMeans(m: Memory) returns (z: nat)
    requires MemInv(m)
    ensures var (m', r) := AllocPages(m, ZoneNormal, 1);
      && SameLinks(m, m') && |m'.pages| == |m.pages|
      && match r
         case None => m' == m
         case Some(p) =>
           && z < |m.zones| && Table(m') && InZone(m', z, p) && Described(m', p, z) && p < |m.pages|
           && m'.zones == m.zones[z := m.zones[z].(freeCount := m.zones[z].freeCount - 1,
                                                   usingCount := m.zones[z].usingCount + 1)]
           && m' == m.(used := m'.used, zones := m'.zones, pages := m'.pages)
           && m'.pages == m.pages[p := m.pages[p].(attribute := {Mapped})]
  {
    z := AllocOneOk(m);
    var y := AllocMeans(m, ZoneNormal, 1);
    AllocKeepsRefs(m, ZoneNormal, 1);
    var (m1, r) := AllocPages(m, ZoneNormal, 1);
    if r.Some? {
      hide Conserved, AllocPages, Table, InZone, SameLinks;
      ChargedZone(m, m1, y, z, r.value);
    }
  }

  lemma DropPageMeans(m: Memory, p: nat)
    requires Zoned(m, p)
    ensures SameLinks(m, DropPage(m, p)) && DropPage(m, p).pages == m.pages[p := m.pages[p].(attribute := {})]
  {
    LinksUntouched(m, DropPage(m, p));
  }

  /** A page given back has one reference less, and so has its zone, and no attribute. */
  lemma PutPageMeans(m: Memory, p: nat)
    requires Table(m) && Zoned(m, p)
    ensures var m', z := PutPage(m, p), m.pages[p].zone.value;
      && m'.pages == m.pages[p := m.pages[p].(attribute := {}, refs := m.pages[p].refs - 1)]
      && m'.zones == m.zones[z := m.zones[z].(freeCount := m.zones[z].freeCount + 1, usingCount := m.zones[z].usingCount - 1,
                                              link := m.zones[z].link - 1)]
      && m' == m.(used := m'.used, zones := m'.zones, pages := m'.pages) && SameLinks(m, m')
  {
    var z := m.pages[p].zone.value;
    var m1 := PageClean(m, p, z);
    CleanMeans(m, p, z);
    assert Zoned(m1, p);
    DropPageMeans(m1, p);
    SameLinksTrans(m, m1, PutPage(m, p));
  }

  /** A page taken for a slab and given back leaves no trace. */
  lemma PageComesBack(m: Memory, p: nat)
    requires MemInv(m) && GetPage(m).1 == Some(p)
    requires p < |m.pages| && m.pages[p].refs == 0 && m.pages[p].attribute == {}
    ensures PutPage(GetPage(m).0, p) == m
  {
    GetPageOk(m);
    var z := GetPageMeans(m);
    var m1 := GetPage(m).0;
    hide GetPage, PutPage, Conserved;
    PutPageMeans(m1, p);
    PutPageOk(m1, p);
    var m2 := PutPage(m1, p);
    assert m2.pages == m.pages && m2.used == m.used && m2.zones == m.zones;
  }

  /** The zone that was charged is the one the page belongs to. */
  lemma ChargedZone(m: Memory, m1: Memory, y: nat, z: nat, p: nat)
    requires y < |m.zones| && z < |m.zones| && |m1.zones| == |m.zones| && p < |m.used| && !m.used[p]
    requires forall x :: 0 <= x < |m.zones| && x != y ==> m1.zones[x] == m.zones[x]
    requires m1.zones[y] == m.zones[y].(freeCount := m.zones[y].freeCount - 1, usingCount := m.zones[y].usingCount + 1)
    requires Table(m1) && Conserved(m1) && Table(m) && Conserved(m) && InZone(m1, z, p) && m1.used == m.used[p := true]
    ensures y == z
  {
    assert ZoneShape(m, z) && ZoneShape(m1, z) && ZoneExact(m, z) && ZoneExact(m1, z);
    CountPut(m.used, p, true, Lo(m.zones[z]), Hi(m.zones[z]));
  }

  // ---------------------------------------------------------------- pages and slabs

  /** References to a page besides that of the slab it may belong to. */
  ghost function Extra(h: Heap, p: nat): int
    requires p < |h.mem.pages|
  {
    h.mem.pages[p].refs - (if IsSlabPage(h.pools, p) then 1 else 0)
  }

  /** References have moved with the slabs, in the descriptors and in the zones. */
  ghost predicate SameExtra(h: Heap, h': Heap) {
    && |h'.mem.pages| == |h.mem.pages| && SameLinks(h.mem, h'.mem)
    && forall p: nat :: p < |h.mem.pages| ==> Extra(h', p) == Extra(h, p)
  }

  /** No page has become a slab's. */
  ghost predicate NoNewSlab(h: Heap, h': Heap) {
    forall p: nat :: IsSlabPage(h'.pools, p) ==> IsSlabPage(h.pools, p)
  }

  lemma SameExtraTrans(a: Heap, b: Heap, c: Heap)
    requires SameExtra(a, b) && SameExtra(b, c)
    ensures SameExtra(a, c)
    ensures NoNewSlab(a, b) && NoNewSlab(b, c) ==> NoNewSlab(a, c)
  {
    SameLinksTrans(a.mem, b.mem, c.mem);
  }

  /** Only the pools change, and no slab comes or goes. */
  lemma SameSlabs(h: Heap, ps: Pools)
    requires forall p: nat :: IsSlabPage(ps, p) <==> IsSlabPage(h.pools, p)
    ensures SameExtra(h, h.(pools := ps)) && NoNewSlab(h, h.(pools := ps))
  {
    LinksUntouched(h.mem, h.mem);
  }

  /** A slab goes, and its page with it. */
  lemma SlabGoes(h: Heap, ps: Pools, p: nat)
    requires Table(h.mem) && Zoned(h.mem, p) && IsSlabPage(h.pools, p)
    requires forall q: nat :: IsSlabPage(ps, q) <==> IsSlabPage(h.pools, q) && q != p
    ensures SameExtra(h, Heap(ps, PutPage(h.mem, p))) && NoNewSlab(h, Heap(ps, PutPage(h.mem, p)))
  {
    hide Table, PutPage;
    PutPageMeans(h.mem, p);
  }

  /** A free page comes to a new slab. */
  lemma SlabComes(h: Heap, ps: Pools)
    requires MemInv(h.mem) && GetPage(h.mem).1.Some? && Unreferenced(h.mem)
    requires !IsSlabPage(h.pools, GetPage(h.mem).1.value)
    requires forall q: nat :: IsSlabPage(ps, q) <==> IsSlabPage(h.pools, q) || q == GetPage(h.mem).1.value
    ensures SameExtra(h, Heap(ps, GetPage(h.mem).0))
  {
    var z := GetPageMeans(h.mem);
    GetPageOk(h.mem);
    hide MemInv, GetPage;
  }

  /** No free page has a reference. */
  ghost predicate Unreferenced(m: Memory) {
    forall p: nat :: p < |m.pages| && p < |m.used| && !m.used[p] ==> m.pages[p].refs == 0
  }

  lemma SlabPageZoned(h: Heap, i: nat, k: nat)
    requires Inv(h) && In(h.pools, i, k)
    ensures Table(h.mem) && Zoned(h.mem, At(h.pools, i, k).page) && IsSlabPage(h.pools, At(h.pools, i, k).page)
  {
    assert PageOk(h.mem, At(h.pools, i, k).page);
  }

  // ---------------------------------------------------------------- kfree

  /** A slab that goes with its last object: it is not the first of its pool, and the pool has, with this
      object, free objects for one and a half slabs. */
  predicate Dispensable(ps: Pools, i: nat, k: nat)
    requires In(ps, i, k)
  {
    At(ps, i, k).using == 1 && ps[i].free + 1 >= At(ps, i, k).count * 3 / 2 && k > 0
  }

  lemma DispensableIs(ps: Pools, i: nat, k: nat, j: nat)
    requires Shaped(ps) && In(ps, i, k) && j < |At(ps, i, k).bits|
    ensures ShouldShrink(ClearSlot(ps, i, k, j), i, k) <==> Dispensable(ps, i, k)
    ensures At(ClearSlot(ps, i, k, j), i, k).page == At(ps, i, k).page
  {
  }

  lemma SmallFreeAtRefs(h: Heap, i: nat, k: nat, j: nat)
    requires Inv(h) && i < LARGE && In(h.pools, i, k) && Releasable(h.pools, i, k, j)
    ensures SameExtra(h, SmallFreeAt(h, i, k, j)) && NoNewSlab(h, SmallFreeAt(h, i, k, j))
    ensures IsSlabPage(SmallFreeAt(h, i, k, j).pools, At(h.pools, i, k).page) <==> !Dispensable(h.pools, i, k)
  {
    hide Inv, Live, IsMeta, MemInv, PutPage, PageOk, IsSlabPage, Keeps, Balance, SameExtra, NoNewSlab, SameLinks;
    var ps := ClearSlot(h.pools, i, k, j);
    ClearOk(h, i, k, j);
    SameSlabs(h, ps);
    SlabPageZoned(h, i, k);
    DispensableIs(h.pools, i, k, j);
    if ShouldShrink(ps, i, k) {
      var h1 := h.(pools := ps);
      SlabPageZoned(h1, i, k);
      UnlinkSlabs(h1, i, k);
      SlabGoes(h1, Unlink(ps, i, k), At(ps, i, k).page);
      SameExtraTrans(h, h1, SmallFreeAt(h, i, k, j));
    }
  }

  lemma UnlinkSlabs(h: Heap, i: nat, k: nat)
    requires Inv(h) && In(h.pools, i, k)
    ensures forall q: nat :: IsSlabPage(Unlink(h.pools, i, k), q) <==> IsSlabPage(h.pools, q) && q != At(h.pools, i, k).page
  {
    forall q: nat
      ensures IsSlabPage(Unlink(h.pools, i, k), q) <==> IsSlabPage(h.pools, q) && q != At(h.pools, i, k).page
    {
      UnlinkPages(h.pools, i, k, q);
    }
  }

  lemma SmallFreeRefs(h: Heap, o: Obj)
    requires Inv(h) && o.cls < LARGE && Live(h.pools, o) && !IsMeta(h.pools, o)
    ensures SameExtra(h, SmallFree(h, o)) && NoNewSlab(h, SmallFree(h, o))
  {
    var k: nat :| In(h.pools, o.cls, k) && Holds(At(h.pools, o.cls, k), o);
    LocateIs(h.pools, o.cls, k, 0, 0);
    assert SlabOk(o.cls, k, At(h.pools, o.cls, k));
    SmallFreeAtRefs(h, o.cls, k, o.slot);
  }

  lemma DestroyRefs(h: Heap, i: nat, k: nat)
    requires Inv(h) && LARGE <= i < CLASSES && In(h.pools, i, k) && k != 0 && At(h.pools, i, k).using == 0
    ensures SameExtra(h, Destroy(h, i, k)) && NoNewSlab(h, Destroy(h, i, k))
    ensures !IsSlabPage(Destroy(h, i, k).pools, At(h.pools, i, k).page)
  {
    hide Inv, Live, IsMeta, Keeps, PageOk, IsSlabPage, Balance, SmallFree, PutPage, Shaped, SameLinks, Zoned;
    var s := At(h.pools, i, k);
    OwnObjects(h, i, k);
    UnlinkOk(h, i, k);
    UnlinkSlabs(h, i, k);
    SlabPageZoned(h, i, k);
    var h0 := h.(pools := Unlink(h.pools, i, k));
    SmallFreeOk(h0, s.colorMap.obj);
    SmallFreeRefs(h0, s.colorMap.obj);
    var h1 := SmallFree(h0, s.colorMap.obj);
    PageStays(h0, h1, s.page);
    ReturnPage(h1, s.page);
    TableOf(h1, s.page);
    PutPageMeans(h1.mem, s.page);
    var h2 := h1.(mem := PutPage(h1.mem, s.page));
    SmallFreeRefs(h2, s.header.obj);
    DestroyChain(h, h0, h1, h2, SmallFree(h2, s.header.obj), s.page);
  }

  lemma TableOf(h: Heap, p: nat)
    requires Inv(h) && PageOk(h.mem, p)
    ensures Table(h.mem) && Zoned(h.mem, p)
  {
  }

  /** The page is off the ring before it is given back; the two differences cancel. */
  lemma DestroyChain(h: Heap, h0: Heap, h1: Heap, h2: Heap, h3: Heap, p: nat)
    requires h0.mem == h.mem && IsSlabPage(h.pools, p) && p < |h1.mem.pages|
    requires forall q: nat :: IsSlabPage(h0.pools, q) <==> IsSlabPage(h.pools, q) && q != p
    requires SameExtra(h0, h1) && NoNewSlab(h0, h1) && h2.pools == h1.pools
    requires SameLinks(h1.mem, h2.mem)
    requires h2.mem.pages == h1.mem.pages[p := h1.mem.pages[p].(attribute := {}, refs := h1.mem.pages[p].refs - 1)]
    requires SameExtra(h2, h3) && NoNewSlab(h2, h3)
    ensures SameExtra(h, h3) && NoNewSlab(h, h3) && !IsSlabPage(h3.pools, p)
  {
    hide IsSlabPage, SameLinks;
    SameLinksTrans(h0.mem, h1.mem, h2.mem);
    SameLinksTrans(h0.mem, h2.mem, h3.mem);
    forall q: nat | q < |h.mem.pages|
      ensures Extra(h3, q) == Extra(h, q)
    {
      assert Extra(h3, q) == Extra(h2, q) && Extra(h1, q) == Extra(h0, q);
    }
  }

  lemma FreeAtRefs(h: Heap, i: nat, k: nat, j: nat)
    requires Inv(h) && i < CLASSES && In(h.pools, i, k) && Releasable(h.pools, i, k, j)
    ensures SameExtra(h, FreeAt(h, i, k, j)) && NoNewSlab(h, FreeAt(h, i, k, j))
    ensures IsSlabPage(FreeAt(h, i, k, j).pools, At(h.pools, i, k).page) <==> !Dispensable(h.pools, i, k)
  {
    if i < LARGE {
      SmallFreeAtRefs(h, i, k, j);
    } else {
      SlabPageZoned(h, i, k);
      DispensableIs(h.pools, i, k, j);
      hide Inv, Live, IsMeta, PutPage, PageOk, IsSlabPage, Keeps, Balance, Releasable, SameExtra, NoNewSlab, Destroy, Removed;
      var ps := ClearSlot(h.pools, i, k, j);
      ClearOk(h, i, k, j);
      SameSlabs(h, ps);
      if ShouldShrink(ps, i, k) {
        DestroyRefs(Heap(ps, h.mem), i, k);
        SameExtraTrans(h, Heap(ps, h.mem), FreeAt(h, i, k, j));
      }
    }
  }

  /** kfree takes one reference from each page that stops being a slab's, in its descriptor and in its
      zone, and from no other page, and makes no page a slab's: the page of the slab it releases, which is
      that of the object exactly when it is dispensable, and those that go with its header and bitmap. */
  lemma KfreeRefs(h: Heap, address: int)
    requires Inv(h) && MayFree(h, address)
    ensures var h' := Kfree(h, address).0;
      && |h'.mem.pages| == |h.mem.pages| && SameLinks(h.mem, h'.mem) && SameExtra(h, h') && NoNewSlab(h, h')
      && (forall p: nat :: p < |h.mem.pages| ==>
            h'.mem.pages[p].refs == h.mem.pages[p].refs - (if IsSlabPage(h.pools, p) && !IsSlabPage(h'.pools, p) then 1 else 0))
      && match Locate(h.pools, PageOf(address), 0, 0)
         case None => h' == h
         case Some((i, k)) => IsSlabPage(h'.pools, At(h.pools, i, k).page) <==> !Dispensable(h.pools, i, k)
  {
    match Locate(h.pools, PageOf(address), 0, 0)
    case None => SameSlabs(h, h.pools);
    case Some((i, k)) =>
      FreeAtRefs(h, i, k, SlotOf(address, i));
      hide Inv, MayFree, IsSlabPage, FreeAt, SameLinks;
      var h' := Kfree(h, address).0;
      forall p: nat | p < |h.mem.pages|
        ensures h'.mem.pages[p].refs == h.mem.pages[p].refs - (if IsSlabPage(h.pools, p) && !IsSlabPage(h'.pools, p) then 1 else 0)
      {
        assert Extra(h', p) == Extra(h, p);
      }
  }

  // ---------------------------------------------------------------- kmalloc

  lemma GrowSlabs(h: Heap, i: nat, s: Slab)
    requires Shaped(h.pools) && i < CLASSES && MapFits(s)
    ensures Grow(h, i, s).0.mem == h.mem
    ensures forall q: nat :: IsSlabPage(Grow(h, i, s).0.pools, q) <==> IsSlabPage(h.pools, q) || q == s.page
  {
    ShapedAfter(h.pools, i, 0, s, 0);
    var h1, k := h.(pools := Link(h.pools, i, s)), |h.pools[i].ring|;
    Positions(h.pools, i, 0, s, 0);
    forall q: nat
      ensures IsSlabPage(Grow(h, i, s).0.pools, q) <==> IsSlabPage(h.pools, q) || q == s.page
    {
      LinkPages(h.pools, i, s, q);
      MallocPages(h1, i, k, q);
    }
  }

  lemma MallocPages(h: Heap, i: nat, k: nat, q: nat)
    requires Shaped(h.pools) && In(h.pools, i, k)
    ensures SlabMalloc(h, i, k).0.mem == h.mem
    ensures IsSlabPage(SlabMalloc(h, i, k).0.pools, q) <==> IsSlabPage(h.pools, q)
  {
    var s := At(h.pools, i, k);
    var j := FirstClear(s.bits, 0, s.count);
    if j < s.count {
      PutPages(h.pools, i, k, Occupied(s, j), 1, q);
    }
  }

  lemma MallocRefs(h: Heap, i: nat, k: nat)
    requires Shaped(h.pools) && In(h.pools, i, k)
    ensures SameExtra(h, SlabMalloc(h, i, k).0)
  {
    hide IsSlabPage;
    forall q: nat
      ensures IsSlabPage(SlabMalloc(h, i, k).0.pools, q) <==> IsSlabPage(h.pools, q)
    {
      MallocPages(h, i, k, q);
    }
    SameSlabs(h, SlabMalloc(h, i, k).0.pools);
    MallocPages(h, i, k, 0);
  }

  lemma SmallMallocRefs(h: Heap, i: nat)
    requires Inv(h) && i < LARGE && Unreferenced(h.mem)
    ensures SameExtra(h, SmallMalloc(h, i).0)
  {
    assert In(h.pools, i, 0);
    MemoryOf(h);
    if h.pools[i].free != 0 {
      MallocRefs(h, i, FindSlab(h.pools[i].ring, 0));
    } else {
      hide Inv, IsSlabPage, GetPage, MemInv, SameExtra, Grow;
      SameSlabs(h, h.pools);
      var (m, r) := GetPage(h.mem);
      if r.Some? {
        NewPageIsNobodys(h, m, r.value);
        GrowSlabs(Heap(h.pools, m), i, FreshTail(i, r.value));
        SlabComes(h, Grow(Heap(h.pools, m), i, FreshTail(i, r.value)).0.pools);
      }
    }
  }

  /** The references of the heap are right: one to each slab's page, none to a free page. */
  ghost predicate Referenced(h: Heap) {
    forall p: nat :: p < |h.mem.pages| && p < |h.mem.used| && (IsSlabPage(h.pools, p) || !h.mem.used[p]) ==> Extra(h, p) == 0
  }

  lemma ReferencedStays(h: Heap, h': Heap)
    requires Referenced(h) && SameExtra(h, h') && Keeps(h, h')
    ensures Referenced(h')
  {
    hide IsSlabPage, SameLinks;
    forall p: nat | p < |h'.mem.pages| && p < |h'.mem.used| && (IsSlabPage(h'.pools, p) || !h'.mem.used[p])
      ensures Extra(h', p) == 0
    {
      assert IsSlabPage(h.pools, p) || !h.mem.used[p];
    }
  }

  lemma FreePagesUnreferenced(h: Heap)
    requires Inv(h) && Referenced(h)
    ensures Unreferenced(h.mem)
  {
    forall p: nat | p < |h.mem.pages| && p < |h.mem.used| && !h.mem.used[p]
      ensures h.mem.pages[p].refs == 0
    {
      SlabPagesUsed(h, p);
      assert Extra(h, p) == 0;
    }
  }

  /** Header and page can be had, and the bitmap cannot: its pool is empty, and the page was the last. */
  predicate BitmapFails(h: Heap, i: nat)
    requires |h.pools| == CLASSES && LARGE <= i < CLASSES
  {
    MapClass(i) < LARGE && BitmapPoolEmpty(h, i) && Avail(h.mem) == (if h.pools[HEADER_CLASS].free == 0 then 2 else 1)
  }

  /** A page in use that belongs to nobody yet. */
  ghost predicate Pending(h: Heap, h': Heap, page: nat) {
    && |h'.mem.pages| == |h.mem.pages| && SameLinks(h.mem, h'.mem)
    && forall p: nat :: p < |h.mem.pages| ==> Extra(h', p) == Extra(h, p) + (if p == page then 1 else 0)
  }

  lemma PendingSame(a: Heap, b: Heap, c: Heap, page: nat)
    requires (SameExtra(a, b) && Pending(b, c, page)) || (Pending(a, b, page) && SameExtra(b, c))
    ensures Pending(a, c, page)
  {
    hide IsSlabPage;
    SameLinksTrans(a.mem, b.mem, c.mem);
    forall p: nat | p < |a.mem.pages|
      ensures Extra(c, p) == Extra(a, p) + (if p == page then 1 else 0)
    {
      assert Extra(c, p) - Extra(b, p) + Extra(b, p) - Extra(a, p) == (if p == page then 1 else 0);
    }
  }

  lemma PageTaken(h: Heap, m: Memory, page: nat)
    requires Inv(h) && GetPage(h.mem) == (m, Some(page)) && Unreferenced(h.mem)
    ensures Pending(h, h.(mem := m), page) && Unreferenced(m) && page < |h.mem.pages|
  {
    MemoryOf(h);
    NewPageIsNobodys(h, m, page);
    var z := GetPageMeans(h.mem);
    GetPageOk(h.mem);
    hide MemInv, GetPage, IsSlabPage, Inv;
  }

  /** When the bitmap fails the page goes back with its reference. */
  lemma PageStrays(h: Heap, h1: Heap, m: Memory, i: nat, header: Obj, page: nat)
    requires HalfWay(h, h1, m, i, header, page) && SmallMalloc(h1.(mem := m), MapClass(i)).1.None?
    requires SameExtra(h, h1) && Unreferenced(h1.mem) && SmallMalloc(h, HEADER_CLASS) == (h1, Some(header))
    ensures var h' := GetNewSlab(h, i).0; page < |h.mem.pages| && Pending(h, h', page) && !SameExtra(h, h')
  {
    hide Inv, Live, IsMeta, Keeps, SmallFree, SmallMalloc, GetPage, DropPage, IsSlabPage, PageOk, SameLinks, MemInv;
    PageIsUndone(h, h1, m, i, header, page);
    PageTaken(h1, m, page);
    var h4 := h1.(mem := DropPage(m, page));
    PageIsZoned(h1, m, page);
    DropPageMeans(m, page);
    SameLinksTrans(h1.mem, m, h4.mem);
    assert Pending(h1, h4, page);
    SmallFreeRefs(h4, header);
    PendingSame(h, h1, h4, page);
    PendingSame(h, h4, SmallFree(h4, header), page);
    assert Extra(SmallFree(h4, header), page) == Extra(h, page) + 1;
  }

  lemma PageIsZoned(h: Heap, m: Memory, page: nat)
    requires Inv(h) && GetPage(h.mem) == (m, Some(page))
    ensures Zoned(m, page)
  {
    MemoryOf(h);
    GetPageOk(h.mem);
  }

  lemma GetNewSlabRefs(h: Heap, i: nat)
    requires Inv(h) && Referenced(h) && LARGE <= i < CLASSES
    ensures |h.pools| == CLASSES
    ensures var (h', r) := GetNewSlab(h, i);
      match r
      case None => SameExtra(h, h') <==> !BitmapFails(h, i)
      case Some(s) => Pending(h, h', s.page) && !BitmapFails(h, i)
  {
    MapClassIsSmall(i);
    hide Inv, Live, IsMeta, Keeps, Added, SmallFree, SmallMalloc, GetPage, DropPage, IsSlabPage, SameExtra, Pending, Referenced, TailCount, MapClass;
    hide Shaped, LargeSame, Balance, HalfWay, Unreferenced, BitmapFails;
    HeaderRefs(h, i);
    BitmapFailsIs(h, i);
    var (h1, r1) := SmallMalloc(h, HEADER_CLASS);
    if r1.Some? {
      AfterHeader(h1);
      var (m, r2) := GetPage(h1.mem);
      if r2.None? {
        NoPageRefs(h, h1, i, r1.value);
      } else {
        BitmapRefs(h, h1, m, i, r1.value, r2.value);
      }
    }
  }

  /** The condition foresees the third step. */
  lemma BitmapFailsIs(h: Heap, i: nat)
    requires Inv(h) && LARGE <= i < CLASSES
    ensures |h.pools| == CLASSES && MapClass(i) < LARGE
    ensures var (h1, r1) := SmallMalloc(h, HEADER_CLASS);
      && (r1.None? ==> !BitmapFails(h, i))
      && (r1.Some? ==>
            && Inv(h1)
            && var (m, r2) := GetPage(h1.mem);
            && (r2.None? ==> !BitmapFails(h, i))
            && (r2.Some? ==>
                  && Inv(h1.(mem := m))
                  && (SmallMalloc(h1.(mem := m), MapClass(i)).1.None? <==> BitmapFails(h, i))))
  {
    MapClassIsSmall(i);
    ManyHeaders();
    hide Inv, Live, IsMeta, SmallMalloc, GetPage, TailCount, MapClass;
    SmallMallocSupply(h, HEADER_CLASS);
    SmallTakes(h, HEADER_CLASS, MapClass(i));
    var (h1, r1) := SmallMalloc(h, HEADER_CLASS);
    if r1.Some? {
      AfterHeader(h1);
      var (m, r2) := GetPage(h1.mem);
      if r2.Some? {
        SmallMallocSupply(h1.(mem := m), MapClass(i));
      }
    }
  }

  /** The header is taken: what the next two steps rely on. */
  lemma HeaderRefs(h: Heap, i: nat)
    requires Inv(h) && Referenced(h) && LARGE <= i < CLASSES
    ensures var (h1, r) := SmallMalloc(h, HEADER_CLASS);
      && SameExtra(h, h1)
      && (r.Some? ==>
            && Inv(h1) && Unreferenced(h1.mem) && r.value.cls == HEADER_CLASS && Live(h1.pools, r.value) && !IsMeta(h1.pools, r.value)
            && (GetPage(h1.mem).1.Some? ==> HalfWay(h, h1, GetPage(h1.mem).0, i, r.value, GetPage(h1.mem).1.value)))
  {
    MapClassIsSmall(i);
    hide Inv, Live, IsMeta, Keeps, SmallMalloc, GetPage, IsSlabPage, SameExtra, Referenced, TailCount, MapClass;
    FreePagesUnreferenced(h);
    SmallMallocOk(h, HEADER_CLASS);
    SmallMallocRefs(h, HEADER_CLASS);
    var (h1, r1) := SmallMalloc(h, HEADER_CLASS);
    if r1.Some? {
      ReferencedStays(h, h1);
      FreePagesUnreferenced(h1);
      HeaderIsUsers(h, h1, r1.value);
    }
  }

  /** The last step: the page waits for its slab, or strays. */
  lemma BitmapRefs(h: Heap, h1: Heap, m: Memory, i: nat, header: Obj, page: nat)
    requires HalfWay(h, h1, m, i, header, page) && SameExtra(h, h1) && Unreferenced(h1.mem)
    requires Inv(h1.(mem := m)) && SmallMalloc(h, HEADER_CLASS) == (h1, Some(header))
    ensures var (h', r) := GetNewSlab(h, i);
      match r
      case None => !SameExtra(h, h') && SmallMalloc(h1.(mem := m), MapClass(i)).1.None?
      case Some(s) => Pending(h, h', s.page) && SmallMalloc(h1.(mem := m), MapClass(i)).1.Some?
  {
    hide Inv, Live, IsMeta, Keeps, Added, SmallFree, SmallMalloc, GetPage, DropPage, IsSlabPage, SameExtra, Pending, MapClass, TailCount;
    var h2 := h1.(mem := m);
    if SmallMalloc(h2, MapClass(i)).1.None? {
      PageStrays(h, h1, m, i, header, page);
    } else {
      PageTaken(h1, m, page);
      SmallMallocRefs(h2, MapClass(i));
      PendingSame(h, h1, h2, page);
      PendingSame(h, h2, SmallMalloc(h2, MapClass(i)).0, page);
    }
  }

  lemma NoPageRefs(h: Heap, h1: Heap, i: nat, header: Obj)
    requires LARGE <= i < CLASSES && Inv(h) && SmallMalloc(h, HEADER_CLASS) == (h1, Some(header)) && SameExtra(h, h1)
    requires Inv(h1) && header.cls == HEADER_CLASS && Live(h1.pools, header) && !IsMeta(h1.pools, header) && GetPage(h1.mem).1.None?
    ensures SameExtra(h, GetNewSlab(h, i).0)
  {
    hide Live, IsMeta, SmallFree, SmallMalloc, GetPage, IsSlabPage, SameExtra, Inv;
    MapClassIsSmall(i);
    SmallFreeRefs(h1, header);
    SameExtraTrans(h, h1, SmallFree(h1, header));
  }

  /** kmalloc of a class in a pool that is empty, when the bitmap of the new slab fails. */
  predicate Strays(h: Heap, i: nat)
    requires |h.pools| == CLASSES
  {
    LARGE <= i < CLASSES && i != NO_GROWTH && h.pools[i].free == 0 && BitmapFails(h, i)
  }

  lemma MallocClassRefs(h: Heap, i: nat)
    requires Inv(h) && Referenced(h) && i < CLASSES
    ensures |h.pools| == CLASSES && (SameExtra(h, MallocClass(h, i).0) <==> !Strays(h, i))
  {
    hide Inv, Live, IsMeta, IsSlabPage, SameExtra, Referenced, BitmapFails;
    assert In(h.pools, i, 0);
    FreePagesUnreferenced(h);
    SameSlabs(h, h.pools);
    if i < LARGE {
      SmallMallocRefs(h, i);
    } else if h.pools[i].free != 0 {
      MallocRefs(h, i, FindSlab(h.pools[i].ring, 0));
    } else if i != NO_GROWTH {
      GetNewSlabRefs(h, i);
      if GetNewSlab(h, i).1.Some? {
        GrowLargeRefs(h, i);
      }
    }
  }

  lemma GrowLargeRefs(h: Heap, i: nat)
    requires Inv(h) && LARGE <= i < CLASSES && GetNewSlab(h, i).1.Some? && Pending(h, GetNewSlab(h, i).0, GetNewSlab(h, i).1.value.page)
    ensures SameExtra(h, Grow(GetNewSlab(h, i).0, i, GetNewSlab(h, i).1.value).0)
  {
    hide Inv, Live, IsMeta, SameExtra, GetNewSlab, Pending, Grow, Balance, Keeps, PageOk;
    GetNewSlabOk(h, i);
    var (h1, r) := GetNewSlab(h, i);
    LinkableIsNew(h1.pools, i, r.value);
    GrowSlabs(h1, i, r.value);
    PendingJoins(h, h1, Grow(h1, i, r.value).0, r.value.page);
  }

  lemma LinkableIsNew(ps: Pools, i: nat, s: Slab)
    requires Linkable(ps, i, s)
    ensures !IsSlabPage(ps, s.page)
  {
  }

  /** The page that was waiting becomes the slab's. */
  lemma PendingJoins(h: Heap, h1: Heap, h2: Heap, page: nat)
    requires Pending(h, h1, page) && h2.mem == h1.mem && !IsSlabPage(h1.pools, page)
    requires forall q: nat :: IsSlabPage(h2.pools, q) <==> IsSlabPage(h1.pools, q) || q == page
    ensures SameExtra(h, h2)
  {
    hide IsSlabPage, SameLinks;
    forall p: nat | p < |h.mem.pages|
      ensures Extra(h2, p) == Extra(h, p)
    {
      assert Extra(h1, p) == Extra(h, p) + (if p == page then 1 else 0);
    }
  }

  /** kmalloc moves references with the slabs, in descriptors and zones, except in one case: the pool of a
      large class is empty, header and page can be had, and the bitmap cannot. */
  lemma KmallocRefs(h: Heap, size: nat)
    requires Inv(h) && Referenced(h)
    ensures |h.pools| == CLASSES
    ensures SameExtra(h, Kmalloc(h, size).0) <==> !(size <= 1048576 && Strays(h, ClassOf(size, 0)))
    ensures SameExtra(h, Kmalloc(h, size).0) ==> Referenced(Kmalloc(h, size).0)
  {
    hide Inv, SameExtra, Referenced, Strays;
    KmallocOk(h, size);
    if size <= 1048576 {
      LargestFits(size);
      MallocClassRefs(h, ClassOf(size, 0));
    } else {
      SameSlabs(h, h.pools);
      MallocClassRefs(h, 0);
    }
    if SameExtra(h, Kmalloc(h, size).0) {
      ReferencedStays(h, Kmalloc(h, size).0);
    }
  }

  // ---------------------------------------------------------------- whole runs

  /** The references are right for a client: besides those of slabs there is none to a page that is free,
      a slab's or the client's. */
  ghost predicate Accounted(h: Heap, c: Client) {
    forall p: nat :: p < |h.mem.pages| && !Others(h, c, p) ==> Extra(h, p) == 0
  }

  /** No kmalloc whose bitmap fails. */
  predicate Tidy(h: Heap, op: Op)
    requires |h.pools| == CLASSES
  {
    op.Malloc? && op.size <= 1048576 ==> !Strays(h, ClassOf(op.size, 0))
  }

  lemma StepRefs(h: Heap, c: Client, op: Op)
    requires Inv(h) && Owns(h, c) && HeapSafety.Legal(c, op) && Accounted(h, c) && |h.pools| == CLASSES
    ensures SameExtra(h, Step(h, c, op).0) <==> Tidy(h, op)
    ensures Tidy(h, op) ==> Accounted(Step(h, c, op).0, Step(h, c, op).1)
  {
    hide Inv, Live, IsMeta, Kmalloc, Kfree, Addr, PageOk, IsSlabPage, SameLinks, AllocPages, DropPage, Strays, Account, SameExtra;
    StepOk(h, c, op);
    match op {
      case Malloc(size) =>
        assert Referenced(h);
        KmallocRefs(h, size);
      case Free(o) =>
        assert User(h.pools, o);
        UserMayBeFreed(h, o);
        KfreeRefs(h, Addr(o));
      case TakePage =>
        AllocKeepsRefs(h.mem, ZoneNormal, 1);
        SameRefs(h, AllocPages(h.mem, ZoneNormal, 1).0);
      case GivePage(p) =>
        assert OwnPage(h, p);
        TableOf(h, p);
        DropPageMeans(h.mem, p);
        SameRefs(h, DropPage(h.mem, p));
    }
    if Tidy(h, op) {
      AccountedStays(h, c, Step(h, c, op).0, Step(h, c, op).1);
    }
  }

  lemma SameRefs(h: Heap, m: Memory)
    requires SameLinks(h.mem, m) && |m.pages| == |h.mem.pages|
    requires forall i :: 0 <= i < |m.pages| ==> m.pages[i].refs == h.mem.pages[i].refs
    ensures SameExtra(h, h.(mem := m))
  {
    hide IsSlabPage, SameLinks;
  }

  lemma AccountedStays(h: Heap, c: Client, h': Heap, c': Client)
    requires Accounted(h, c) && SameExtra(h, h')
    requires forall p :: Others(h, c, p) ==> Others(h', c', p)
    ensures Accounted(h', c')
  {
    hide IsSlabPage, SameLinks, Others;
    forall p: nat | p < |h'.mem.pages| && !Others(h', c', p)
      ensures Extra(h', p) == 0
    {
      assert !Others(h, c, p);
    }
  }

  ghost predicate TidyRun(h: Heap, c: Client, ops: seq<Op>)
    requires Shaped(h.pools)
    decreases |ops|
  {
    ops == [] ||
    (|h.pools| == CLASSES && Tidy(h, ops[0]) && TidyRun(Step(h, c, ops[0]).0, Step(h, c, ops[0]).1, ops[1..]))
  }

  /** Over every run without such a kmalloc: each slab's page has one reference, free pages and those of the
      client have none, other pages keep theirs, and the links of every zone follow. */
  lemma {:induction false} RunKeepsReferences(h: Heap, c: Client, ops: seq<Op>)
    requires Inv(h) && Owns(h, c) && LegalRun(h, c, ops) && Accounted(h, c) && TidyRun(h, c, ops)
    ensures var (h', c') := Run(h, c, ops); SameExtra(h, h') && Accounted(h', c')
    decreases |ops|
  {
    if ops != [] {
      hide Inv, Owns, Accounted, HeapSafety.Legal, SameExtra, Tidy, Others, Account;
      StepOk(h, c, ops[0]);
      StepRefs(h, c, ops[0]);
      var (h1, c1) := Step(h, c, ops[0]);
      RunKeepsReferences(h1, c1, ops[1..]);
      SameExtraTrans(h, h1, Run(h1, c1, ops[1..]).0);
    } else {
      SameSlabs(h, h.pools);
    }
  }

  // ---------------------------------------------------------------- the first heap

  /** As init_memory leaves the pages behind the boot data: no reference to a free page, and each page
      untouched or taken once. */
  ghost predicate Untouched(m: Memory, end: nat)
    requires PAGE_OFFSET <= m.endOfStruct <= end
  {
    && |m.pages| <= |m.used| && Unreferenced(m)
    && Sole(m.pages, PageFrom(m.endOfStruct), DataPage(end) + CLASSES)
  }

  /** A page the kernel has taken for itself, once. */
  predicate KernelPage(p: Page) {
    p.refs == 1 && p.attribute == {Mapped, KernelInit, Flag.Kernel}
  }

  predicate KernelPages(pages: seq<Page>, lo: nat, hi: nat) {
    forall p :: lo <= p < hi && p < |pages| ==> KernelPage(pages[p])
  }

  /** Pages that are such, or as yet untouched. */
  predicate Sole(pages: seq<Page>, lo: nat, hi: nat) {
    forall p :: lo <= p < hi && p < |pages| ==> (pages[p].refs == 0 && pages[p].attribute == {}) || KernelPage(pages[p])
  }

  /** Reserving a run of such pages makes them the kernel's, and leaves the others alone. */
  lemma RunRefs(m: Memory, p: nat, n: nat, lo: nat, hi: nat)
    requires Table(m) && NeverAhead(m) && BackedRun(m, p, n) && ZonedRun(m, p, n)
    requires lo <= p && p + n <= hi && Sole(m.pages, lo, hi) && Unreferenced(m)
    ensures var m' := ReserveRun(m, p, n, BOOT_FLAGS);
      && SameLinks(m, m') && |m'.pages| == |m.pages| && |m'.used| == |m.used| && Unreferenced(m') && Sole(m'.pages, lo, hi)
      && Table(m') && NeverAhead(m') && KernelPages(m'.pages, p, p + n)
      && (forall q :: 0 <= q < |m.pages| && !(p <= q < p + n) ==> m'.pages[q] == m.pages[q])
  {
    hide Table, Conserved, ReserveRun, Zoned, SameLinks, NeverAhead, RunClear, BackedRun, ZonedRun;
    ReserveRunConserves(m, p, n, BOOT_FLAGS);
    ReserveMeans(m, p, n, BOOT_FLAGS);
  }

  /** Setting up the heap takes every page from the end of the boot data to its sixteenth data page for the
      kernel, once, and gives no free page a reference. */
  lemma SetUpRefs(m: Memory, end: nat)
    requires Table(m) && Conserved(m) && RoomFor(m, end) && Untouched(m, end)
    ensures var m' := SetUp(m, end);
      && SameLinks(m, m') && |m'.pages| == |m.pages| && |m'.used| == |m.used| && Unreferenced(m')
      && KernelPages(m'.pages, PageFrom(m.endOfStruct), DataPage(end) + CLASSES)
      && forall p :: 0 <= p < |m.pages| && p < PageFrom(m.endOfStruct) ==> m'.pages[p] == m.pages[p]
  {
    SetUpRuns(m, end);
    PagesInOrder(m.endOfStruct, end);
    var lo, count := PageFrom(m.endOfStruct), PageWith(end) + 1 - PageFrom(m.endOfStruct);
    var m0 := m.(endOfStruct := end);
    var m1 := ReserveRun(m0, lo, count, BOOT_FLAGS);
    var m2 := ReserveRun(m1, DataPage(end), CLASSES, BOOT_FLAGS);
    ConservedIsBehind(m0);
    assert SetUp(m, end) == m2 && Unreferenced(m0);
    hide Table, Conserved, ReserveRun, Zoned, PageFrom, DataPage, PageWith, RoomFor, SameLinks, NeverAhead, Unreferenced, Sole, SetUp, BackedRun, ZonedRun;
    RunRefs(m0, lo, count, lo, DataPage(end) + CLASSES);
    RunRefs(m1, DataPage(end), CLASSES, lo, DataPage(end) + CLASSES);
    LinksUntouched(m, m0);
    SameLinksTrans(m, m0, m1);
    SameLinksTrans(m, m1, m2);
  }

  /** So the first heap starts a run with its references right. */
  lemma FirstAccounted(m: Memory, origin: nat, end: nat)
    requires Table(m) && Conserved(m) && RoomFor(m, end) && Untouched(m, end)
    ensures Accounted(Heap(FirstPools(origin, DataPage(end)), SetUp(m, end)), Client({}, {}))
  {
    var first := DataPage(end);
    var h := Heap(FirstPools(origin, first), SetUp(m, end));
    SetUpRefs(m, end);
    SetUpConserves(m, end);
    FirstPositions(origin, first);
    hide Table, Conserved, SetUp, FirstPools, FirstPool, FirstSlab, DataPage, RoomFor, Zoned, SameLinks;
    forall p: nat | p < |h.mem.pages| && !Others(h, Client({}, {}), p)
      ensures Extra(h, p) == 0
    {
      if IsSlabPage(h.pools, p) {
        var i: nat, k: nat :| In(h.pools, i, k) && At(h.pools, i, k).page == p;
        assert At(h.pools, i, 0) == FirstSlab(origin, i, first + i);
        SlabPlace(origin, i, first + i);
      }
    }
  }

  lemma SlabPlace(origin: nat, i: nat, page: nat)
    requires i < CLASSES
    ensures FirstSlab(origin, i, page).page == page
  {
  }
}
