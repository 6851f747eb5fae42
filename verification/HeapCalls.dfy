/** kmalloc and kfree, with the calls they make into other pools. */
module HeapCalls {
  import opened Options
  import opened Pages
  import opened Heap
  import opened HeapInvariant
  import opened HeapOperations

  // ---------------------------------------------------------------- pages held by slabs

  function SlabCount(ps: Pools): nat {
    if ps == [] then 0 else SlabCount(ps[..|ps| - 1]) + |ps[|ps| - 1].ring|
  }

  lemma {:induction false} SlabCountPut(ps: Pools, i: nat, p: Pool)
    requires i < |ps|
    ensures SlabCount(ps[i := p]) == SlabCount(ps) - |ps[i].ring| + |p.ring|
    decreases |ps|
  {
    var n := |ps| - 1;
    if i == n {
      assert ps[i := p][..n] == ps[..n];
    } else {
      assert ps[i := p][..n] == ps[..n][i := p];
      SlabCountPut(ps[..n], i, p);
    }
  }

  /** Free pages plus slabs: what neither kmalloc nor kfree may change. */
  function Balance(h: Heap): int {
    FreeTotal(h.mem.zones) + SlabCount(h.pools)
  }

  /** Large pools are out of reach for the calls that serve headers and bitmaps. */
  predicate LargeSame(ps: Pools, qs: Pools) {
    |ps| == |qs| == CLASSES && forall c: nat :: LARGE <= c < CLASSES ==> qs[c] == ps[c]
  }

  // ---------------------------------------------------------------- self-contained pools

  lemma FreshTailOk(i: nat, k: nat, page: nat)
    requires i < LARGE && k > 0
    ensures SlabOk(i, k, FreshTail(i, page)) && FreshTail(i, page).count > 0
  {
    FreshBitsOk(TailCount(i));
  }

  lemma FreshBitsOk(count: nat)
    ensures |FreshBits(count)| == 8 * MapBytes(count) >= count
    ensures UsedIn(FreshBits(count), count) == 0
  {
    UsedExtremes(FreshBits(count), count);
  }

  lemma SmallMallocOk(h: Heap, i: nat)
    requires Inv(h) && i < LARGE
    ensures var (h', r) := SmallMalloc(h, i);
      && Inv(h') && Keeps(h, h') && LargeSame(h.pools, h'.pools) && Balance(h') == Balance(h)
      && match r
         case None => h' == h && h.pools[i].free == 0 && GetPage(h.mem).1.None?
         case Some(o) => o.cls == i && Added(h, h', o)
  {
    assert In(h.pools, i, 0);
    if h.pools[i].free != 0 {
      var k := FindSlab(h.pools[i].ring, 0);
      PoolHasRoom(h, i);
      SlabMallocOk(h, i, k);
      var h' := SmallMalloc(h, i).0;
      SlabCountPut(h.pools, i, h'.pools[i]);
    } else {
      var (m, r) := GetPage(h.mem);
      GetPageOk(h.mem);
      if r.Some? {
        GrowSmallOk(h, m, i, r.value);
      }
    }
  }

  lemma GrowSmallReady(h: Heap, m: Memory, i: nat, p: nat)
    requires Inv(h) && i < LARGE && GetPage(h.mem) == (m, Some(p))
    ensures Inv(Heap(h.pools, m)) && Keeps(h, Heap(h.pools, m))
    ensures Linkable(h.pools, i, FreshTail(i, p)) && FreshTail(i, p).count > 0 && PageOk(m, p)
    ensures FreeTotal(m.zones) == FreeTotal(h.mem.zones) - 1
    ensures p < |h.mem.used| && !h.mem.used[p]
  {
    GetPageOk(h.mem);
    SwapMemory(h, m);
    FreshTailOk(i, |h.pools[i].ring|, p);
    NewPageIsNobodys(h, m, p);
    assert In(h.pools, i, 0);
  }

  lemma GrowSmallOk(h: Heap, m: Memory, i: nat, p: nat)
    requires Inv(h) && i < LARGE && GetPage(h.mem) == (m, Some(p))
    ensures var (h', r) := Grow(Heap(h.pools, m), i, FreshTail(i, p));
      && Inv(h') && Keeps(h, h') && LargeSame(h.pools, h'.pools) && Balance(h') == Balance(h)
      && r.Some? && r.value.cls == i && Added(h, h', r.value)
  {
    GrowSmallReady(h, m, i, p);
    var h1 := Heap(h.pools, m);
    GrowOk(h1, i, FreshTail(i, p));
    var h' := Grow(h1, i, FreshTail(i, p)).0;
    SlabCountPut(h.pools, i, h'.pools[i]);
    assert h'.pools == h.pools[i := h'.pools[i]];
    GrowKeeps(h, h1, h', p);
  }

  lemma GrowKeeps(h: Heap, h1: Heap, h': Heap, p: nat)
    requires Keeps(h, h1) && h1.pools == h.pools && h'.mem == h1.mem
    requires p < |h.mem.used| && !h.mem.used[p]
    requires forall q: nat :: IsSlabPage(h'.pools, q) <==> IsSlabPage(h.pools, q) || q == p
    ensures Keeps(h, h')
  {
  }

  /** A page that was free belongs to no slab and lies above the boot data. */
  lemma NewPageIsNobodys(h: Heap, m: Memory, p: nat)
    requires Inv(h) && GetPage(h.mem) == (m, Some(p))
    ensures !IsSlabPage(h.pools, p) && PageOk(m, p)
    ensures forall i: nat, k: nat :: In(h.pools, i, k) ==> At(h.pools, i, k).page != p
  {
    GetPageOk(h.mem);
    forall i: nat, k: nat | In(h.pools, i, k)
      ensures At(h.pools, i, k).page != p
    {
      assert PageOk(h.mem, At(h.pools, i, k).page);
    }
  }

  /** Taking an empty slab off its ring, with the page still in use. */
  lemma UnlinkOk(h: Heap, i: nat, k: nat)
    requires Inv(h) && In(h.pools, i, k) && k != 0 && At(h.pools, i, k).using == 0
    ensures var h', s := h.(pools := Unlink(h.pools, i, k)), At(h.pools, i, k);
      && Inv(h') && Keeps(h, h')
      && (forall x :: Live(h'.pools, x) <==> Live(h.pools, x))
      && (forall x :: IsMeta(h'.pools, x) <==> IsMeta(h.pools, x) && !KeptBy(s, x))
      && PageOk(h'.mem, s.page) && !IsSlabPage(h'.pools, s.page)
      && Balance(h') == Balance(h) - 1
  {
    var ps, s := Unlink(h.pools, i, k), At(h.pools, i, k);
    UnlinkInv(h.pools, i, k);
    Positions(h.pools, i, k, s, 0);
    assert PageOk(h.mem, s.page);
    forall i': nat, k': nat | In(ps, i', k')
      ensures PageOk(h.mem, At(ps, i', k').page)
      ensures In(h.pools, i', Back(i, k, i', k')) && At(ps, i', k') == At(h.pools, i', Back(i, k, i', k'))
    {
      assert In(h.pools, i', Back(i, k, i', k'));
      assert PageOk(h.mem, At(h.pools, i', Back(i, k, i', k')).page);
    }
    assert BootOk(h.(pools := ps)) by {
      forall i': nat, k': nat, b: bool | In(ps, i', k') && Ref(ps, i', k', b).Static?
        ensures Ref(ps, i', k', b).addr + (if b then HEADER else MapBytes(At(ps, i', k').count)) <= h.mem.endOfStruct
      {
        assert Ref(ps, i', k', b) == Ref(h.pools, i', Back(i, k, i', k'), b);
      }
    }
    forall p: nat
      ensures IsSlabPage(ps, p) <==> IsSlabPage(h.pools, p) && p != s.page
    {
      UnlinkPages(h.pools, i, k, p);
    }
    SlabCountPut(h.pools, i, ps[i]);
  }

  /** Giving back a page that no slab owns. */
  lemma ReturnPage(h: Heap, p: nat)
    requires Inv(h) && PageOk(h.mem, p) && !IsSlabPage(h.pools, p)
    ensures Inv(h.(mem := PutPage(h.mem, p))) && Inv(h.(mem := DropPage(h.mem, p)))
    ensures Balance(h.(mem := PutPage(h.mem, p))) == Balance(h) + 1
    ensures Balance(h.(mem := DropPage(h.mem, p))) == Balance(h) + 1
    ensures SamePlan(h.mem, PutPage(h.mem, p)) && PutPage(h.mem, p).used == h.mem.used[p := false]
    ensures SamePlan(h.mem, DropPage(h.mem, p)) && DropPage(h.mem, p).used == h.mem.used[p := false]
  {
    PutPageOk(h.mem, p);
    DropPageOk(h.mem, p);
    SwapMemory(h, PutPage(h.mem, p));
    SwapMemory(h, DropPage(h.mem, p));
  }

  /** Clearing a slot, before any shrinking. */
  lemma ClearOk(h: Heap, i: nat, k: nat, j: nat)
    requires Inv(h) && In(h.pools, i, k) && Releasable(h.pools, i, k, j)
    ensures var h', o := h.(pools := ClearSlot(h.pools, i, k, j)), Obj(i, At(h.pools, i, k).page, j);
      && Inv(h') && Keeps(h, h') && Balance(h') == Balance(h)
      && (forall x :: Live(h'.pools, x) <==> Live(h.pools, x) && x != o)
      && (forall x :: IsMeta(h'.pools, x) <==> IsMeta(h.pools, x))
      && In(h'.pools, i, k) && KeptSame(At(h.pools, i, k), At(h'.pools, i, k))
      && (forall p :: IsSlabPage(h'.pools, p) <==> IsSlabPage(h.pools, p))
  {
    var s := At(h.pools, i, k);
    var t := Released(s, j);
    var ps := ClearSlot(h.pools, i, k, j);
    ReleaseInv(h.pools, i, k, j);
    SamePlaces(h, ps, i, k, t, -1);
    forall p: nat
      ensures IsSlabPage(ps, p) <==> IsSlabPage(h.pools, p)
    {
      PutPages(h.pools, i, k, t, -1, p);
    }
    Positions(h.pools, i, k, t, -1);
    SlabCountPut(h.pools, i, ps[i]);
  }

  predicate KeptSame(s: Slab, t: Slab) {
    s.page == t.page && s.header == t.header && s.colorMap == t.colorMap && s.count == t.count
  }

  /** The full description of a release of o. */
  ghost predicate Removed(h: Heap, h': Heap, o: Obj) {
    && Live(h.pools, o)
    && (forall x :: Live(h'.pools, x) <==> Live(h.pools, x) && x != o)
    && (forall x :: IsMeta(h'.pools, x) <==> IsMeta(h.pools, x))
  }

  lemma SmallFreeAtOk(h: Heap, i: nat, k: nat, j: nat)
    requires Inv(h) && i < LARGE && In(h.pools, i, k)
    requires Releasable(h.pools, i, k, j)
    ensures var h' := SmallFreeAt(h, i, k, j);
      && Inv(h') && Keeps(h, h') && LargeSame(h.pools, h'.pools) && Balance(h') == Balance(h)
      && Removed(h, h', Obj(i, At(h.pools, i, k).page, j))
  {
    hide Live, IsMeta, MemInv, PutPage, PageOk, BootOk, SlabPagesOk;
    var s := At(h.pools, i, k);
    var ps := ClearSlot(h.pools, i, k, j);
    var h1 := h.(pools := ps);
    ClearOk(h, i, k, j);
    LiveAt(h.pools, i, k, Obj(i, s.page, j));
    if ShouldShrink(ps, i, k) {
      UnlinkOk(h1, i, k);
      var h2 := h1.(pools := Unlink(ps, i, k));
      ReturnPage(h2, s.page);
      assert SlabOk(i, k, s);
      assert IsSlabPage(h.pools, s.page);
      assert SmallFreeAt(h, i, k, j) == h2.(mem := PutPage(h2.mem, s.page));
    }
  }

  lemma SmallFreeOk(h: Heap, o: Obj)
    requires Inv(h) && o.cls < LARGE && Live(h.pools, o) && !IsMeta(h.pools, o)
    ensures var h' := SmallFree(h, o);
      && Inv(h') && Keeps(h, h') && LargeSame(h.pools, h'.pools) && Balance(h') == Balance(h)
      && Removed(h, h', o)
  {
    var k: nat :| In(h.pools, o.cls, k) && Holds(At(h.pools, o.cls, k), o);
    LocateIs(h.pools, o.cls, k, 0, 0);
    SmallFreeAtOk(h, o.cls, k, o.slot);
  }

  // ---------------------------------------------------------------- get_new_Slab

  lemma FreshLargeOk(i: nat, k: nat, page: nat, header: Obj, colorMap: Obj)
    requires LARGE <= i < CLASSES && k > 0
    requires header.cls == HEADER_CLASS && colorMap.cls == MapClass(i)
    ensures SlabOk(i, k, FreshLarge(i, page, header, colorMap)) && FreshLarge(i, page, header, colorMap).count > 0
  {
    FreshBitsOk(FullCount(i));
  }

  /** Failure gives everything back; success leaves an empty slab ready to be linked, whose header
      and bitmap are the two new objects of the heap. */
  lemma GetNewSlabOk(h: Heap, i: nat)
    requires Inv(h) && LARGE <= i < CLASSES
    ensures var (h', r) := GetNewSlab(h, i);
      && Inv(h') && Keeps(h, h') && LargeSame(h.pools, h'.pools)
      && match r
         case None => SameObjects(h, h') && Balance(h') == Balance(h)
         case Some(s) =>
           && Balance(h') == Balance(h) - 1
           && Linkable(h'.pools, i, s) && s.count > 0 && PageOk(h'.mem, s.page)
           && s.header.Kept? && s.colorMap.Kept?
           && (h.mem.used[s.page] ==> IsSlabPage(h.pools, s.page))
           && (forall x :: Live(h'.pools, x) <==> Live(h.pools, x) || KeptBy(s, x))
           && (forall x :: KeptBy(s, x) ==> !Live(h.pools, x))
           && (forall x :: IsMeta(h'.pools, x) <==> IsMeta(h.pools, x))
  {
    MapClassIsSmall(i);
    SmallMallocOk(h, HEADER_CLASS);
    var (h1, r1) := SmallMalloc(h, HEADER_CLASS);
    if r1.Some? {
      HeaderIsUsers(h, h1, r1.value);
      GetPageOk(h1.mem);
      var (m, r2) := GetPage(h1.mem);
      if r2.None? {
        SmallFreeOk(h1, r1.value);
        KeepsTrans(h, h1, SmallFree(h1, r1.value));
      } else {
        assert HalfWay(h, h1, m, i, r1.value, r2.value);
        if SmallMalloc(h1.(mem := m), MapClass(i)).1.None? {
          GetMapFails(h, h1, m, i, r1.value, r2.value);
        } else {
          GetMapSucceeds(h, h1, m, i, r1.value, r2.value);
        }
      }
    }
  }

  /** An object just allocated serves no slab. */
  lemma HeaderIsUsers(h: Heap, h1: Heap, o: Obj)
    requires Inv(h) && Added(h, h1, o)
    ensures !IsMeta(h1.pools, o)
  {
    if IsMeta(h.pools, o) {
      MetaIsLive(h.pools, o);
    }
  }

  /** Header and page are there, the bitmap is still missing. */
  ghost predicate HalfWay(h: Heap, h1: Heap, m: Memory, i: nat, header: Obj, page: nat) {
    && Inv(h) && Inv(h1) && Keeps(h, h1) && LargeSame(h.pools, h1.pools)
    && LARGE <= i < CLASSES && MapClass(i) < LARGE && Balance(h1) == Balance(h)
    && Added(h, h1, header) && header.cls == HEADER_CLASS && !IsMeta(h1.pools, header)
    && GetPage(h1.mem) == (m, Some(page))
  }

  lemma GetMapStep(h: Heap, h1: Heap, m: Memory, i: nat, header: Obj, page: nat)
    requires HalfWay(h, h1, m, i, header, page)
    ensures var (h3, r) := SmallMalloc(h1.(mem := m), MapClass(i));
      && Inv(h3) && Keeps(h1, h3) && Keeps(h, h3) && LargeSame(h.pools, h3.pools) && Balance(h3) == Balance(h) - 1
      && PageOk(h3.mem, page) && !IsSlabPage(h3.pools, page)
      && page < |h1.mem.used| && !h1.mem.used[page]
      && match r
         case None => h3 == h1.(mem := m)
         case Some(o) => o.cls == MapClass(i) && Added(h1, h3, o)
  {
    hide Live, IsMeta, SmallMalloc, GetPage, Table, Conserved, PoolsInv, BootOk, Shaped;
    GetPageOk(h1.mem);
    NewPageIsNobodys(h1, m, page);
    var h2 := h1.(mem := m);
    SwapMemory(h1, m);
    assert Keeps(h1, h2);
    SmallMallocOk(h2, MapClass(i));
    var h3 := SmallMalloc(h2, MapClass(i)).0;
    KeepsTrans(h1, h2, h3);
    KeepsTrans(h, h1, h3);
    SamePlanZoned(h2.mem, h3.mem, page);
  }

  /** Without a bitmap the page goes back, which restores the state before it was taken. */
  lemma PageIsUndone(h: Heap, h1: Heap, m: Memory, i: nat, header: Obj, page: nat)
    requires HalfWay(h, h1, m, i, header, page)
    requires SmallMalloc(h1.(mem := m), MapClass(i)).1.None?
    ensures var h4 := h1.(mem := DropPage(m, page));
      && SmallMalloc(h1.(mem := m), MapClass(i)).0 == h1.(mem := m)
      && Inv(h4) && Keeps(h, h4) && Balance(h4) == Balance(h)
  {
    hide Inv, Live, IsMeta, PageOk, IsSlabPage, SmallMalloc, GetPage, DropPage, Keeps, SamePlan, Added, MemInv;
    MemoryOf(h1);
    GetMapStep(h, h1, m, i, header, page);
    GetPageOk(h1.mem);
    ReturnPage(h1.(mem := m), page);
    var h4 := h1.(mem := DropPage(m, page));
    assert h4.mem.used == h1.mem.used;
    UndoKeeps(h, h1, h4, page);
  }

  lemma GetMapFails(h: Heap, h1: Heap, m: Memory, i: nat, header: Obj, page: nat)
    requires HalfWay(h, h1, m, i, header, page)
    requires SmallMalloc(h1.(mem := m), MapClass(i)).1.None?
    ensures var h3 := SmallMalloc(h1.(mem := m), MapClass(i)).0;
      var h' := SmallFree(h3.(mem := DropPage(h3.mem, page)), header);
      Inv(h') && Keeps(h, h') && LargeSame(h.pools, h'.pools) && SameObjects(h, h') && Balance(h') == Balance(h)
  {
    PageIsUndone(h, h1, m, i, header, page);
    var h4 := h1.(mem := DropPage(m, page));
    SmallFreeOk(h4, header);
    KeepsTrans(h, h4, SmallFree(h4, header));
  }

  /** With a bitmap the slab is complete. */
  lemma SlabIsLinkable(ps: Pools, i: nat, page: nat, header: Obj, colorMap: Obj)
    requires Shaped(ps) && LARGE <= i < CLASSES && !IsSlabPage(ps, page)
    requires header.cls == HEADER_CLASS && colorMap.cls == MapClass(i) && header != colorMap
    requires Live(ps, header) && !IsMeta(ps, header) && Live(ps, colorMap) && !IsMeta(ps, colorMap)
    ensures Linkable(ps, i, FreshLarge(i, page, header, colorMap))
  {
    assert In(ps, i, 0);
    FreshLargeOk(i, |ps[i].ring|, page, header, colorMap);
    forall i': nat, k': nat | In(ps, i', k')
      ensures At(ps, i', k').page != page
    {
      assert IsSlabPage(ps, At(ps, i', k').page);
    }
  }

  lemma AddedTwice(h: Heap, h1: Heap, h3: Heap, s: Slab, header: Obj, colorMap: Obj)
    requires Added(h, h1, header) && Added(h1, h3, colorMap)
    requires s.header == Kept(header) && s.colorMap == Kept(colorMap)
    ensures forall x :: Live(h3.pools, x) <==> Live(h.pools, x) || KeptBy(s, x)
    ensures forall x :: KeptBy(s, x) ==> !Live(h.pools, x)
    ensures forall x :: IsMeta(h3.pools, x) <==> IsMeta(h.pools, x)
  {
  }

  lemma GetMapSucceeds(h: Heap, h1: Heap, m: Memory, i: nat, header: Obj, page: nat)
    requires HalfWay(h, h1, m, i, header, page)
    requires SmallMalloc(h1.(mem := m), MapClass(i)).1.Some?
    ensures var (h3, r) := SmallMalloc(h1.(mem := m), MapClass(i));
      var s := FreshLarge(i, page, header, r.value);
      && Inv(h3) && Keeps(h, h3) && LargeSame(h.pools, h3.pools) && Balance(h3) == Balance(h) - 1
      && Linkable(h3.pools, i, s) && s.count > 0 && PageOk(h3.mem, page)
      && (h.mem.used[page] ==> IsSlabPage(h.pools, page))
      && (forall x :: Live(h3.pools, x) <==> Live(h.pools, x) || KeptBy(s, x))
      && (forall x :: KeptBy(s, x) ==> !Live(h.pools, x))
      && (forall x :: IsMeta(h3.pools, x) <==> IsMeta(h.pools, x))
  {
    GetMapStep(h, h1, m, i, header, page);
    var (h3, r) := SmallMalloc(h1.(mem := m), MapClass(i));
    HeaderIsUsers(h1, h3, r.value);
    assert Live(h3.pools, header) && Live(h3.pools, r.value) && !IsMeta(h3.pools, header);
    SlabIsLinkable(h3.pools, i, page, header, r.value);
    FreshLargeOk(i, 1, page, header, r.value);
    AddedTwice(h, h1, h3, FreshLarge(i, page, header, r.value), header, r.value);
  }

  /** Taking a page and giving it back leaves the rest alone. */
  lemma UndoKeeps(h: Heap, h1: Heap, h4: Heap, page: nat)
    requires Keeps(h, h1) && page < |h1.mem.used| && !h1.mem.used[page]
    requires SamePlan(h1.mem, h4.mem) && h4.pools == h1.pools && h4.mem.used == h1.mem.used
    ensures Keeps(h, h4)
  {
  }
}
