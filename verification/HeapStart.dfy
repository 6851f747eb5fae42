/** The heap as kmalloc_slab_init leaves it: one empty slab per pool, headers and bitmaps laid out
    after the boot data, and sixteen data pages right behind them. */
module HeapStart {
  import opened Pages
  import opened Heap
  import opened HeapInvariant

  /** End of the boot data after the headers and bitmaps of the first i pools. */
  function LayoutEnd(origin: nat, i: nat): nat
    requires i <= CLASSES
    decreases i, origin
  {
    if i == 0 then origin
    else (LayoutEnd(origin, i - 1) + HEADER + 80 + MapBytes(FullCount(i - 1)) + 80) / 8 * 8
  }

  /** The first page that begins at or behind an address. */
  function PageFrom(address: nat): nat
    requires address >= PAGE_OFFSET
  {
    (address - PAGE_OFFSET + PAGE - 1) / PAGE
  }

  /** The first data page. */
  function DataPage(end: nat): nat
    requires end >= PAGE_OFFSET
  {
    PageFrom(end)
  }

  /** The page that holds an address. */
  function PageWith(address: nat): nat
    requires address >= PAGE_OFFSET
  {
    (address - PAGE_OFFSET) / PAGE
  }

  /** Slab k == 0 of pool i: header, gap of ten words, bitmap. */
  function FirstSlab(origin: nat, i: nat, page: nat): Slab
    requires i < CLASSES
  {
    Slab(Static(LayoutEnd(origin, i)), Static(LayoutEnd(origin, i) + HEADER + 80), page,
         0, FullCount(i), FullCount(i), FreshBits(FullCount(i)))
  }

  function FirstPool(origin: nat, i: nat, page: nat): Pool
    requires i < CLASSES
  {
    Pool(0, FullCount(i), [FirstSlab(origin, i, page)])
  }

  function FirstPools(origin: nat, first: nat): Pools {
    seq(CLASSES, i requires 0 <= i < CLASSES => FirstPool(origin, i, first + i))
  }

  /** The first n pools before the data pages are handed out. */
  function Unplaced(origin: nat, n: nat): (ps: Pools)
    requires n <= CLASSES
    ensures |ps| == n
  {
    seq(n, i requires 0 <= i < n => FirstPool(origin, i, 0))
  }

  lemma UnplacedStep(origin: nat, n: nat)
    requires n < CLASSES
    ensures Unplaced(origin, n + 1) == Unplaced(origin, n) + [FirstPool(origin, n, 0)]
  {
  }

  lemma {:induction false} LayoutGrows(origin: nat, i: nat, n: nat)
    requires i < n <= CLASSES
    ensures LayoutEnd(origin, i) + HEADER + 80 + MapBytes(FullCount(i)) + 72 <= LayoutEnd(origin, n)
    ensures LayoutEnd(origin, i) >= origin
    decreases n
  {
    LayoutAbove(origin, i);
    if i < n - 1 {
      LayoutGrows(origin, i, n - 1);
    }
  }

  lemma {:induction false} LayoutAbove(origin: nat, i: nat)
    requires i <= CLASSES
    ensures LayoutEnd(origin, i) >= origin
  {
    if i > 0 {
      LayoutAbove(origin, i - 1);
    }
  }

  lemma FirstSlabOk(origin: nat, i: nat, page: nat)
    requires i < CLASSES
    ensures SlabOk(i, 0, FirstSlab(origin, i, page)) && PoolOk(FirstPool(origin, i, page))
    ensures MapFits(FirstSlab(origin, i, page))
  {
    UsedExtremes(FreshBits(FullCount(i)), FullCount(i));
    var s := FirstSlab(origin, i, page);
    SumAppend([], s);
    assert [] + [s] == [s];
  }

  lemma FirstPositions(origin: nat, first: nat)
    ensures var ps := FirstPools(origin, first);
      && |ps| == CLASSES
      && (forall i: nat, k: nat :: In(ps, i, k) <==> i < CLASSES && k == 0)
      && (forall i: nat :: i < CLASSES ==>
            ps[i] == FirstPool(origin, i, first + i) && In(ps, i, 0) && At(ps, i, 0) == FirstSlab(origin, i, first + i))
  {
    hide LayoutEnd, FullCount, FreshBits;
    var ps := FirstPools(origin, first);
    forall i: nat | i < CLASSES
      ensures ps[i] == FirstPool(origin, i, first + i) && |ps[i].ring| == 1
    {
    }
  }

  lemma FirstPoolsInv(origin: nat, first: nat)
    ensures PoolsInv(FirstPools(origin, first))
    ensures forall o :: !Live(FirstPools(origin, first), o)
  {
    hide FirstPools, FirstPool, LayoutEnd, BitsOk, SumFree, SumUsing, FreshBits;
    var ps := FirstPools(origin, first);
    FirstPositions(origin, first);
    forall i: nat | i < CLASSES
      ensures SlabOk(i, 0, At(ps, i, 0)) && PoolOk(ps[i]) && MapFits(At(ps, i, 0))
      ensures !At(ps, i, 0).header.Kept? && !At(ps, i, 0).colorMap.Kept?
    {
      FirstSlabOk(origin, i, first + i);
    }
    forall o
      ensures !Live(ps, o)
    {
      FirstSlabEmpty(origin, first, o);
    }
  }

  lemma FirstShaped(origin: nat, first: nat)
    ensures Shaped(FirstPools(origin, first)) && |FirstPools(origin, first)| == CLASSES
  {
    FirstPoolsInv(origin, first);
  }

  lemma FirstSlabEmpty(origin: nat, first: nat, o: Obj)
    ensures !Live(FirstPools(origin, first), o)
  {
    hide FirstPools, LayoutEnd;
    FirstPositions(origin, first);
  }

  lemma FirstPages(origin: nat, first: nat)
    ensures |FirstPools(origin, first)| == CLASSES
    ensures forall i: nat :: i < CLASSES ==>
      |FirstPools(origin, first)[i].ring| == 1 && FirstPools(origin, first)[i].ring[0].page == first + i
  {
    hide LayoutEnd, FullCount, FreshBits;
    var ps := FirstPools(origin, first);
    forall i: nat | i < CLASSES
      ensures |ps[i].ring| == 1 && ps[i].ring[0].page == first + i
    {
      assert ps[i] == FirstPool(origin, i, first + i);
    }
  }

  /** The state before the first kmalloc satisfies the heap invariant exactly when the page counters are
      right: the static headers and bitmaps lie below the end of the boot data, whose pages are in use,
      and the data pages above it. */
  lemma FirstHeapInv(m: Memory, origin: nat, first: nat)
    requires Table(m) && m.endOfStruct == LayoutEnd(origin, CLASSES) <= PageAddr(first)
    requires forall p: nat :: first <= p < first + CLASSES ==> Taken(m, p)
    requires forall p: nat :: p < |m.used| && PageAddr(p) < m.endOfStruct ==> m.used[p]
    ensures |FirstPools(origin, first)| == CLASSES
    ensures forall i: nat :: i < CLASSES ==>
      |FirstPools(origin, first)[i].ring| == 1 && FirstPools(origin, first)[i].ring[0].page == first + i
    ensures Inv(Heap(FirstPools(origin, first), m)) <==> Conserved(m)
    ensures forall o :: !Live(FirstPools(origin, first), o)
  {
    hide PoolsInv, Table, Conserved, FirstPools, FirstPool, LayoutEnd, FreshBits, Zoned, Live;
    FirstPages(origin, first);
    var ps := FirstPools(origin, first);
    FirstPositions(origin, first);
    FirstPoolsInv(origin, first);
    forall i: nat, k: nat | In(ps, i, k)
      ensures PageOk(m, At(ps, i, k).page)
    {
      assert Taken(m, first + i);
    }
    forall i: nat, k: nat, b: bool | In(ps, i, k) && Ref(ps, i, k, b).Static?
      ensures Ref(ps, i, k, b).addr + (if b then HEADER else MapBytes(At(ps, i, k).count)) <= m.endOfStruct
    {
      LayoutGrows(origin, i, CLASSES);
    }
  }

  /** Page p of a zone is in use. */
  ghost predicate Taken(m: Memory, p: nat) {
    Zoned(m, p) && p < |m.used| && m.used[p]
  }

  // ---------------------------------------------------------------- the pages of the first heap

  /** Before the heap is set up the pages up to the end of the boot data are in use, and those behind
      it, to sixteen pages past the new end, are free pages of zones. */
  ghost predicate RoomFor(m: Memory, end: nat)
    ensures RoomFor(m, end) ==> PAGE_OFFSET <= m.endOfStruct <= end
  {
    && PAGE_OFFSET <= m.endOfStruct <= end
    && (forall p: nat :: PageFrom(m.endOfStruct) <= p < DataPage(end) + CLASSES ==> Roomy(m, p))
    && (forall p: nat :: p < |m.used| && PageAddr(p) < m.endOfStruct ==> m.used[p])
  }

  /** A page of a zone that is free unless the boot data ends where it begins. */
  ghost predicate Roomy(m: Memory, p: nat) {
    Zoned(m, p) && p < |m.used| && (m.used[p] <==> PageAddr(p) == m.endOfStruct)
  }

  /** The pages the new headers and bitmaps reach into, to the one with the new end, and then the
      sixteen data pages. */
  ghost function SetUp(m: Memory, end: nat): Memory
    requires Table(m) && Conserved(m) && RoomFor(m, end)
  {
    SetUpRuns(m, end);
    var lo, count := PageFrom(m.endOfStruct), PageWith(end) + 1 - PageFrom(m.endOfStruct);
    ReserveRun(ReserveRun(m.(endOfStruct := end), lo, count, BOOT_FLAGS), DataPage(end), CLASSES, BOOT_FLAGS)
  }

  lemma PagesInOrder(origin: nat, end: nat)
    requires PAGE_OFFSET <= origin <= end
    ensures PageFrom(origin) <= PageWith(end) + 1 && PageWith(end) <= DataPage(end) <= PageWith(end) + 1
    ensures origin % PAGE == 0 <==> PageAddr(PageFrom(origin)) == origin
    ensures origin % PAGE == 0 ==> PageFrom(origin) <= PageWith(end)
    ensures end % PAGE == 0 <==> DataPage(end) == PageWith(end)
    ensures end % PAGE == 0 ==> PageFrom(origin) <= PageWith(end)
    ensures end <= PageAddr(DataPage(end)) && end < PageAddr(PageWith(end) + 1)
    ensures origin <= PageAddr(PageFrom(origin)) < origin + PAGE
  {
  }

  lemma SetUpRuns(m: Memory, end: nat)
    requires Table(m) && Conserved(m) && RoomFor(m, end)
    ensures PageFrom(m.endOfStruct) <= PageWith(end) + 1
    ensures var m0, lo, count := m.(endOfStruct := end), PageFrom(m.endOfStruct), PageWith(end) + 1 - PageFrom(m.endOfStruct);
      && Table(m0) && Conserved(m0)
      && BackedRun(m0, lo, count) && ZonedRun(m0, lo, count)
      && var m1 := ReserveRun(m0, lo, count, BOOT_FLAGS);
      BackedRun(m1, DataPage(end), CLASSES) && ZonedRun(m1, DataPage(end), CLASSES) && Reserved(m0, m1, lo, lo + count) && Table(m1)
  {
    var lo := PageFrom(m.endOfStruct);
    PagesInOrder(m.endOfStruct, end);
    hide PageFrom, PageWith, DataPage, Table, Conserved, Zoned, ReserveRun, PageAddr;
    var count := PageWith(end) + 1 - lo;
    RoomIsZoned(m, end, lo, count);
    RoomIsZoned(m, end, DataPage(end), CLASSES);
    EndMoves(m, end, lo, count);
    EndMoves(m, end, DataPage(end), CLASSES);
    var m0 := m.(endOfStruct := end);
    ConservedIsBehind(m0);
    ReserveRunConserves(m0, lo, count, BOOT_FLAGS);
    ReservedZoned(m0, ReserveRun(m0, lo, count, BOOT_FLAGS), lo, lo + count, DataPage(end), CLASSES);
  }

  lemma RoomIsZoned(m: Memory, end: nat, p: nat, n: nat)
    requires RoomFor(m, end) && PageFrom(m.endOfStruct) <= p && p + n <= DataPage(end) + CLASSES
    ensures BackedRun(m, p, n) && ZonedRun(m, p, n)
  {
    forall l | p <= l < p + n
      ensures Zoned(m, l) && Backed(m, l)
    {
      assert Roomy(m, l);
    }
  }

  lemma ReservedZoned(m: Memory, m': Memory, lo: nat, hi: nat, p: nat, n: nat)
    requires Reserved(m, m', lo, hi) && ZonedRun(m, p, n)
    ensures BackedRun(m', p, n) && ZonedRun(m', p, n)
  {
    forall l | p <= l < p + n
      ensures Zoned(m', l) && Backed(m', l)
    {
      assert Zoned(m, l);
      SamePlanZoned(m, m', l);
    }
  }

  /** Setting up the heap keeps the page counters exact if and only if neither the boot data before nor
      the data after it ends on a page boundary: a page where one of them does is reserved twice. */
  lemma SetUpConserves(m: Memory, end: nat)
    requires Table(m) && Conserved(m) && RoomFor(m, end)
    ensures var m' := SetUp(m, end);
      && Table(m') && m'.endOfStruct == end <= PageAddr(DataPage(end))
      && (Conserved(m') <==> m.endOfStruct % PAGE != 0 && end % PAGE != 0)
      && (forall p: nat :: DataPage(end) <= p < DataPage(end) + CLASSES ==> Taken(m', p))
      && (forall p: nat :: p < |m'.used| && PageAddr(p) < end ==> m'.used[p])
  {
    SetUpRuns(m, end);
    var lo, count := PageFrom(m.endOfStruct), PageWith(end) + 1 - PageFrom(m.endOfStruct);
    var m0 := m.(endOfStruct := end);
    var m1 := ReserveRun(m0, lo, count, BOOT_FLAGS);
    var m2 := ReserveRun(m1, DataPage(end), CLASSES, BOOT_FLAGS);
    assert SetUp(m, end) == m2;
    hide *;
    PagesInOrder(m.endOfStruct, end);
    ConservedIsBehind(m0);
    ReserveRunConserves(m0, lo, count, BOOT_FLAGS);
    ReserveRunConserves(m1, DataPage(end), CLASSES, BOOT_FLAGS);
    FirstRunClear(m, end);
    SecondRunClear(m, m1, end);
    SetUpUsed(m, m1, m2, end);
  }

  lemma FirstRunClear(m: Memory, end: nat)
    requires RoomFor(m, end)
    ensures PageFrom(m.endOfStruct) <= PageWith(end) + 1
    ensures RunClear(m.used, PageFrom(m.endOfStruct), PageWith(end) + 1 - PageFrom(m.endOfStruct)) <==> m.endOfStruct % PAGE != 0
  {
    var lo := PageFrom(m.endOfStruct);
    PagesInOrder(m.endOfStruct, end);
    hide PageFrom, PageWith, DataPage, Zoned;
    if m.endOfStruct % PAGE == 0 {
      assert Roomy(m, lo);
    } else {
      forall l | lo <= l < PageWith(end) + 1
        ensures l < |m.used| && !m.used[l]
      {
        assert Roomy(m, l);
      }
    }
  }

  lemma SecondRunClear(m: Memory, m1: Memory, end: nat)
    requires RoomFor(m, end) && Reserved(m.(endOfStruct := end), m1, PageFrom(m.endOfStruct), PageWith(end) + 1)
    ensures RunClear(m1.used, DataPage(end), CLASSES) <==> end % PAGE != 0
  {
    PagesInOrder(m.endOfStruct, end);
    hide PageFrom, PageWith, DataPage, Zoned, SamePlan;
    var first := DataPage(end);
    if end % PAGE == 0 {
      assert Roomy(m, first);
    } else {
      forall l | first <= l < first + CLASSES
        ensures l < |m1.used| && !m1.used[l]
      {
        assert Roomy(m, l);
        assert PageAddr(l) >= PageAddr(first) > end;
      }
    }
  }

  lemma SetUpUsed(m: Memory, m1: Memory, m2: Memory, end: nat)
    requires RoomFor(m, end) && Reserved(m.(endOfStruct := end), m1, PageFrom(m.endOfStruct), PageWith(end) + 1)
    requires Reserved(m1, m2, DataPage(end), DataPage(end) + CLASSES)
    ensures m2.endOfStruct == end
    ensures forall p: nat :: DataPage(end) <= p < DataPage(end) + CLASSES ==> Taken(m2, p)
    ensures forall p: nat :: p < |m2.used| && PageAddr(p) < end ==> m2.used[p]
  {
    PagesInOrder(m.endOfStruct, end);
    assert m1.endOfStruct == end && m2.endOfStruct == end;
    forall p: nat | DataPage(end) <= p < DataPage(end) + CLASSES
      ensures Taken(m2, p)
    {
      assert Roomy(m, p);
      SamePlanZoned(m.(endOfStruct := end), m1, p);
      SamePlanZoned(m1, m2, p);
    }
  }

  /** No two of the static headers and bitmaps overlap. */
  lemma StaticPlacesApart(origin: nat, i: nat, j: nat)
    requires i < j < CLASSES
    ensures var a, b := FirstSlab(origin, i, 0), FirstSlab(origin, j, 0);
      && a.header.addr + HEADER <= a.colorMap.addr
      && a.colorMap.addr + MapBytes(a.count) <= b.header.addr
  {
    LayoutGrows(origin, i, j);
  }
}
