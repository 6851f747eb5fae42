/** What the heap needs to grow: how many free pages an allocation takes, and that it fails exactly when
    there are fewer. */
module HeapSupply {
  import opened Options
  import opened Pages
  import opened Heap
  import opened HeapInvariant
  import opened HeapOperations
  import opened HeapCalls

  // ---------------------------------------------------------------- free pages for the kernel

  /** Free pages in the zones that alloc_pages(ZONE_NORMAL, ..) looks at. */
  function Avail(m: Memory): int {
    if m.dma <= m.normal < |m.zones| then FreeTotal(m.zones[m.dma..m.normal + 1]) else 0
  }

  lemma {:induction false} FreeTotalEmpty(zones: seq<Zone>)
    requires forall z :: 0 <= z < |zones| ==> zones[z].freeCount >= 0
    ensures FreeTotal(zones) >= 0
    ensures FreeTotal(zones) == 0 <==> forall z :: 0 <= z < |zones| ==> zones[z].freeCount == 0
  {
    if zones != [] {
      FreeTotalEmpty(zones[..|zones| - 1]);
    }
  }

  lemma AvailPut(m: Memory, m': Memory, z: nat)
    requires z < |m.zones| && m'.dma == m.dma && m'.normal == m.normal && |m'.zones| == |m.zones|
    requires m'.zones == m.zones[z := m'.zones[z]]
    ensures Avail(m') == Avail(m) + if m.dma <= z <= m.normal < |m.zones| then m'.zones[z].freeCount - m.zones[z].freeCount else 0
  {
    if m.dma <= m.normal < |m.zones| {
      var part, part' := m.zones[m.dma..m.normal + 1], m'.zones[m.dma..m.normal + 1];
      if m.dma <= z <= m.normal {
        assert part' == part[z - m.dma := m'.zones[z]];
        FreeTotalPut(part, z - m.dma, m'.zones[z]);
      } else {
        assert part' == part;
      }
    }
  }

  lemma AvailNone(m: Memory)
    requires MemInv(m)
    ensures Avail(m) >= 0
    ensures Avail(m) == 0 <==> forall y :: m.dma <= y <= m.normal && y < |m.zones| ==> m.zones[y].freeCount < 1
  {
    forall y | 0 <= y < |m.zones|
      ensures m.zones[y].freeCount >= 0
    {
      assert ZoneShape(m, y) && ZoneExact(m, y);
    }
    assert m.normal < |m.zones|;
    hide Conserved, Table, FreeTotal;
    if m.dma <= m.normal {
      var part := m.zones[m.dma..m.normal + 1];
      FreeTotalEmpty(part);
      assert forall y :: m.dma <= y <= m.normal ==> m.zones[y] == part[y - m.dma];
    }
  }

  /** A page for the kernel is refused exactly when there is no free one, and else is the only one that
      goes. */
  lemma GetPageAvail(m: Memory)
    requires MemInv(m)
    ensures Avail(m) >= 0 && (GetPage(m).1.None? <==> Avail(m) == 0)
    ensures GetPage(m).1.Some? ==> Avail(GetPage(m).0) == Avail(m) - 1
  {
    hide Conserved, Table, FreeTotal, Avail, AllocPages, FirstFit, Confined;
    SinglePageRefusal(m, ZoneNormal);
    AvailNone(m);
    var z := AllocOneOk(m);
    var (m1, r) := AllocPages(m, ZoneNormal, 1);
    if r.Some? {
      var y := AllocConserves(m, ZoneNormal, 1);
      TakeOneAvail(m, y, r.value, Selected(m, ZoneNormal).2);
      InitAvail(m1, r.value, z);
    }
  }

  lemma TakeOneAvail(m: Memory, z: nat, p: nat, attr: set<Flag>)
    requires FirstFit(m, ZoneNormal, 1, z, p) && m.normal < |m.zones|
    ensures Avail(Take(m, z, p, 1, attr)) == Avail(m) - 1
  {
    AvailPut(m, Take(m, z, p, 1, attr), z);
  }

  lemma InitAvail(m: Memory, p: nat, z: nat)
    requires Described(m, p, z)
    ensures m.pages[p].zone == Some(z) && Avail(PageInit(m, p, z, {Kernel})) == Avail(m)
  {
    AvailPut(m, PageInit(m, p, z, {Kernel}), z);
  }

  // ---------------------------------------------------------------- self-contained pools

  /** A self-contained pool refuses exactly when it is empty and there is no free page; a page is taken
      only when it is empty. */
  lemma SmallMallocSupply(h: Heap, i: nat)
    requires Inv(h) && i < LARGE
    ensures var (h', r) := SmallMalloc(h, i);
      && Avail(h.mem) >= 0 && (r.None? <==> h.pools[i].free == 0 && Avail(h.mem) == 0)
      && (r.Some? ==>
            && Avail(h'.mem) == Avail(h.mem) - (if h.pools[i].free == 0 then 1 else 0)
            && h'.pools[i].free == (if h.pools[i].free == 0 then TailCount(i) else h.pools[i].free) - 1
            && forall c: nat :: c < CLASSES && c != i ==> h'.pools[c] == h.pools[c])
  {
    MemoryOf(h);
    GetPageAvail(h.mem);
    assert In(h.pools, i, 0);
    hide Inv, GetPage, TailCount, Live, IsMeta;
    SmallMallocOk(h, i);
    if h.pools[i].free != 0 {
      PoolHasRoom(h, i);
      TakeFromPool(h, i, FindSlab(h.pools[i].ring, 0));
    } else {
      var (m, p) := GetPage(h.mem);
      if p.Some? {
        GrowTakes(Heap(h.pools, m), i, FreshTail(i, p.value));
        FreshTailHasRoom(i, p.value);
      }
    }
  }

  /** Objects left in a self-contained pool after one more was taken. */
  function OneTaken(free: int, i: nat): int
    requires i < LARGE
  {
    (if free == 0 then TailCount(i) else free) - 1
  }

  /** What taking an object of a self-contained pool leaves in the pools. */
  lemma SmallTakes(h: Heap, i: nat, c: nat)
    requires Inv(h) && i < LARGE && c < CLASSES
    ensures var (h', r) := SmallMalloc(h, i);
      && |h.pools| == CLASSES
      && (r.Some? ==>
            && Inv(h') && |h'.pools| == CLASSES && h'.pools[i].free == OneTaken(h.pools[i].free, i)
            && (c != i ==> h'.pools[c] == h.pools[c]))
  {
    hide Inv, Live, IsMeta;
    SmallMallocSupply(h, i);
    SmallMallocOk(h, i);
  }

  /** What one object costs a pool. */
  lemma TakeFromPool(h: Heap, i: nat, k: nat)
    requires Shaped(h.pools) && In(h.pools, i, k)
    ensures var (h', r) := SlabMalloc(h, i, k);
      && h'.mem == h.mem && |h'.pools| == |h.pools|
      && (forall c: nat :: c < CLASSES && c != i ==> h'.pools[c] == h.pools[c])
      && h'.pools[i].free == h.pools[i].free - (if r.Some? then 1 else 0)
  {
  }

  lemma GrowTakes(h: Heap, i: nat, s: Slab)
    requires Shaped(h.pools) && i < CLASSES && MapFits(s)
    ensures var (h', r) := Grow(h, i, s);
      && h'.mem == h.mem && |h'.pools| == |h.pools|
      && (forall c: nat :: c < CLASSES && c != i ==> h'.pools[c] == h.pools[c])
      && h'.pools[i].free == h.pools[i].free + s.count - (if r.Some? then 1 else 0)
  {
    ShapedAfter(h.pools, i, 0, s, 0);
    TakeFromPool(h.(pools := Link(h.pools, i, s)), i, |h.pools[i].ring|);
  }

  lemma FreshTailHasRoom(i: nat, page: nat)
    requires i < LARGE
    ensures FreshTail(i, page).count == TailCount(i)
  {
  }

  // ---------------------------------------------------------------- get_new_Slab

  /** The pool of the bitmap is empty once the header has been taken. */
  predicate BitmapPoolEmpty(h: Heap, i: nat)
    requires |h.pools| == CLASSES && LARGE <= i < CLASSES && MapClass(i) < LARGE
  {
    if MapClass(i) == HEADER_CLASS then h.pools[HEADER_CLASS].free == 1 else h.pools[MapClass(i)].free == 0
  }

  /** Pages that a new slab of a large class takes: its own, and one for each empty pool it draws on. */
  function Needed(h: Heap, i: nat): (n: nat)
    requires |h.pools| == CLASSES && LARGE <= i < CLASSES
    ensures 1 <= n <= 3
  {
    MapClassIsSmall(i);
    1 + (if h.pools[HEADER_CLASS].free == 0 then 1 else 0) + (if BitmapPoolEmpty(h, i) then 1 else 0)
  }

  lemma ManyHeaders()
    ensures TailCount(HEADER_CLASS) > 2
  {
  }

  /** get_new_Slab fails exactly when there are fewer free pages than it needs, and else takes exactly
      those. */
  lemma GetNewSlabSupply(h: Heap, i: nat)
    requires Inv(h) && LARGE <= i < CLASSES
    ensures Avail(h.mem) >= 0 && (GetNewSlab(h, i).1.None? <==> Avail(h.mem) < Needed(h, i))
    ensures var (h', r) := GetNewSlab(h, i);
      r.Some? ==> Avail(h'.mem) == Avail(h.mem) - Needed(h, i) && r.value.count == FullCount(i) && h'.pools[i] == h.pools[i]
  {
    MapClassIsSmall(i);
    ManyHeaders();
    hide TailCount, MapClass, FullCount, Inv, Live, IsMeta;
    var mc := MapClass(i);
    SmallMallocSupply(h, HEADER_CLASS);
    SmallTakes(h, HEADER_CLASS, mc);
    var (h1, r1) := SmallMalloc(h, HEADER_CLASS);
    if r1.Some? {
      AfterHeader(h1);
      var (m, r2) := GetPage(h1.mem);
      if r2.Some? {
        SmallMallocSupply(h1.(mem := m), mc);
        FreshLargeCount(i, r2.value, r1.value);
      }
    }
  }

  lemma FreshLargeCount(i: nat, page: nat, header: Obj)
    requires LARGE <= i < CLASSES
    ensures forall o :: FreshLarge(i, page, header, o).count == FullCount(i)
  {
  }

  lemma AfterHeader(h: Heap)
    requires Inv(h)
    ensures var (m, r) := GetPage(h.mem);
      && (r.None? <==> Avail(h.mem) == 0)
      && (r.Some? ==> Inv(h.(mem := m)) && Avail(m) == Avail(h.mem) - 1)
  {
    MemoryOf(h);
    GetPageAvail(h.mem);
    GetPageOk(h.mem);
    if GetPage(h.mem).1.Some? {
      SwapMemory(h, GetPage(h.mem).0);
    }
  }

  // ---------------------------------------------------------------- kmalloc

  /** Pages that kmalloc takes when pool i is empty. */
  function Growth(h: Heap, i: nat): (n: nat)
    requires |h.pools| == CLASSES && i < CLASSES
    ensures 1 <= n <= 3
  {
    if i < LARGE then 1 else Needed(h, i)
  }

  /** When kmalloc of class i comes back with NULL: the pool is empty, and either cannot grow or finds
      fewer free pages than it would take. */
  predicate Exhausted(h: Heap, i: nat)
    requires |h.pools| == CLASSES && i < CLASSES
  {
    h.pools[i].free == 0 && (i == NO_GROWTH || Avail(h.mem) < Growth(h, i))
  }

  /** Objects of a new slab. */
  function NewCount(i: nat): nat
    requires i < CLASSES
  {
    if i < LARGE then TailCount(i) else FullCount(i)
  }

  /** kmalloc of a class fails exactly when it is exhausted; a success takes pages only from an empty
      pool, and then exactly the growth. */
  lemma MallocSupply(h: Heap, i: nat)
    requires Inv(h) && i < CLASSES
    ensures var (h', r) := MallocClass(h, i);
      && (r.None? <==> Exhausted(h, i)) && Avail(h.mem) >= 0
      && (r.Some? ==>
            && Avail(h'.mem) == Avail(h.mem) - (if h.pools[i].free == 0 then Growth(h, i) else 0)
            && h'.pools[i].free == (if h.pools[i].free == 0 then NewCount(i) else h.pools[i].free) - 1)
  {
    assert In(h.pools, i, 0);
    MemoryOf(h);
    AvailNone(h.mem);
    hide Inv, Avail, Needed, TailCount, FullCount, Live, IsMeta;
    if i < LARGE {
      SmallMallocSupply(h, i);
    } else if h.pools[i].free != 0 {
      PoolHasRoom(h, i);
      var k := FindSlab(h.pools[i].ring, 0);
      SlabMallocOk(h, i, k);
      TakeFromPool(h, i, k);
    } else if i != NO_GROWTH {
      GetNewSlabSupply(h, i);
      GetNewSlabOk(h, i);
      var (h1, r) := GetNewSlab(h, i);
      if r.Some? {
        GrowOk(h1, i, r.value);
        GrowTakes(h1, i, r.value);
      }
    }
  }

  // ---------------------------------------------------------------- what a new slab draws on

  /** get_new_Slab takes one header and one bitmap from their pools. */
  lemma GetNewSlabDraws(h: Heap, i: nat)
    requires Inv(h) && LARGE <= i < CLASSES && MapClass(i) != HEADER_CLASS
    ensures var (h', r) := GetNewSlab(h, i);
      r.Some? ==>
        && |h'.pools| == CLASSES && MapClass(i) < LARGE
        && h'.pools[HEADER_CLASS].free == OneTaken(h.pools[HEADER_CLASS].free, HEADER_CLASS)
        && h'.pools[MapClass(i)].free == OneTaken(h.pools[MapClass(i)].free, MapClass(i))
  {
    MapClassIsSmall(i);
    hide TailCount, MapClass, FullCount, Inv, Live, IsMeta, OneTaken;
    SmallTakes(h, HEADER_CLASS, MapClass(i));
    var (h1, r1) := SmallMalloc(h, HEADER_CLASS);
    if r1.Some? {
      AfterHeader(h1);
      var (m, r2) := GetPage(h1.mem);
      if r2.Some? {
        SmallTakes(h1.(mem := m), MapClass(i), HEADER_CLASS);
      }
    }
  }

  /** kmalloc of a large class draws on the two pools only when its own is empty. */
  lemma MallocDraws(h: Heap, i: nat)
    requires Inv(h) && LARGE <= i < CLASSES && MapClass(i) != HEADER_CLASS
    ensures var (h', r) := MallocClass(h, i);
      r.Some? ==>
        && |h'.pools| == CLASSES && MapClass(i) < LARGE
        && (h.pools[i].free == 0 ==>
              && h'.pools[HEADER_CLASS].free == OneTaken(h.pools[HEADER_CLASS].free, HEADER_CLASS)
              && h'.pools[MapClass(i)].free == OneTaken(h.pools[MapClass(i)].free, MapClass(i)))
        && (h.pools[i].free != 0 ==>
              && h'.pools[HEADER_CLASS].free == h.pools[HEADER_CLASS].free
              && h'.pools[MapClass(i)].free == h.pools[MapClass(i)].free)
  {
    assert In(h.pools, i, 0);
    MapClassIsSmall(i);
    hide Inv, TailCount, FullCount, MapClass, OneTaken, Live, IsMeta;
    if h.pools[i].free != 0 {
      PoolHasRoom(h, i);
      TakeFromPool(h, i, FindSlab(h.pools[i].ring, 0));
    } else if i != NO_GROWTH {
      GetNewSlabDraws(h, i);
      GetNewSlabOk(h, i);
      var (h1, r) := GetNewSlab(h, i);
      if r.Some? {
        GrowTakes(h1, i, r.value);
      }
    }
  }
}
