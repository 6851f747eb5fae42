/** What the operations of the heap do: every one keeps the invariant, and adds or removes exactly
    the objects it should. */
module HeapOperations {
  import opened Options
  import opened Pages
  import opened Heap
  import opened HeapInvariant

  // ---------------------------------------------------------------- one page in, one page out

  /** Free pages over all zones. */
  function FreeTotal(zones: seq<Zone>): int {
    if zones == [] then 0 else FreeTotal(zones[..|zones| - 1]) + zones[|zones| - 1].freeCount
  }

  lemma {:induction false} FreeTotalPut(zones: seq<Zone>, z: nat, zone: Zone)
    requires z < |zones|
    ensures FreeTotal(zones[z := zone]) == FreeTotal(zones) - zones[z].freeCount + zone.freeCount
    decreases |zones|
  {
    var n := |zones| - 1;
    if z == n {
      assert zones[z := zone][..n] == zones[..n];
    } else {
      assert zones[z := zone][..n] == zones[..n][z := zone];
      FreeTotalPut(zones[..n], z, zone);
    }
  }

  /** One page from the allocator: the lowest free one of the first zone that has any. */
  lemma AllocOneOk(m: Memory) returns (z: nat)
    requires MemInv(m)
    ensures var (m', r) := AllocPages(m, ZoneNormal, 1);
      match r
      case None => m' == m
      case Some(p) =>
        && MemInv(m') && SamePlan(m, m') && p < |m.used| && !m.used[p]
        && z < |m.zones| && InZone(m', z, p) && Described(m', p, z)
        && m'.used == m.used[p := true]
        && FreeTotal(m'.zones) == FreeTotal(m.zones) - 1
  {
    z := AllocConserves(m, ZoneNormal, 1);
    SinglePageConfined(m, ZoneNormal);
    var (m1, r) := AllocPages(m, ZoneNormal, 1);
    if r.Some? {
      assert InZone(m1, z, r.value);
      assert m1.used == m.used[r.value := true];
      FreeTotalPut(m.zones, z, m1.zones[z]);
    }
  }

  lemma PageInitOk(m: Memory, p: nat, z: nat, flags: set<Flag>)
    requires MemInv(m) && Described(m, p, z)
    ensures var m' := PageInit(m, p, z, flags);
      MemInv(m') && SamePlan(m, m') && m'.used == m.used && FreeTotal(m'.zones) == FreeTotal(m.zones)
  {
    InitCleanKeep(m, p, z, flags);
    FreeTotalPut(m.zones, z, PageInit(m, p, z, flags).zones[z]);
  }

  lemma GetPageOk(m: Memory)
    requires MemInv(m)
    ensures var (m', r) := GetPage(m);
      match r
      case None => m' == m
      case Some(p) =>
        && MemInv(m') && SamePlan(m, m') && p < |m.used| && !m.used[p] && Zoned(m', p)
        && m'.used == m.used[p := true]
        && FreeTotal(m'.zones) == FreeTotal(m.zones) - 1
  {
    var z := AllocOneOk(m);
    var (m1, r) := AllocPages(m, ZoneNormal, 1);
    if r.Some? {
      PageInitOk(m1, r.value, z, {Kernel});
    }
  }

  lemma DropPageOk(m: Memory, p: nat)
    requires MemInv(m) && Zoned(m, p) && m.used[p]
    ensures MemInv(DropPage(m, p)) && SamePlan(m, DropPage(m, p))
    ensures DropPage(m, p).used == m.used[p := false]
    ensures FreeTotal(DropPage(m, p).zones) == FreeTotal(m.zones) + 1
  {
    var z := m.pages[p].zone.value;
    assert NeverBehind(m) by {
      forall y | 0 <= y < |m.zones|
        ensures ZoneAhead(m, y)
      {
        assert ZoneShape(m, y) && ZoneExact(m, y);
      }
    }
    FreeOneConserves(m, p, z);
    FreeTotalPut(m.zones, z, FreeOne(m, p, z).zones[z]);
  }

  lemma PutPageOk(m: Memory, p: nat)
    requires MemInv(m) && Zoned(m, p) && m.used[p]
    ensures MemInv(PutPage(m, p)) && SamePlan(m, PutPage(m, p))
    ensures PutPage(m, p).used == m.used[p := false]
    ensures FreeTotal(PutPage(m, p).zones) == FreeTotal(m.zones) + 1
  {
    var z := m.pages[p].zone.value;
    var m1 := PageClean(m, p, z);
    InitCleanKeep(m, p, z, {});
    FreeTotalPut(m.zones, z, m1.zones[z]);
    assert Zoned(m1, p);
    DropPageOk(m1, p);
  }

  // ---------------------------------------------------------------- frames

  ghost predicate IsSlabPage(ps: Pools, p: nat) {
    exists i: nat, k: nat :: In(ps, i, k) && At(ps, i, k).page == p
  }

  /** Pages in use that are no slab's page stay so: the heap leaves other people's pages alone. */
  ghost predicate Keeps(h: Heap, h': Heap) {
    && SamePlan(h.mem, h'.mem)
    && forall p: nat :: p < |h.mem.used| && h.mem.used[p] && !IsSlabPage(h.pools, p)
         ==> p < |h'.mem.used| && h'.mem.used[p] && !IsSlabPage(h'.pools, p)
  }

  lemma KeepsTrans(a: Heap, b: Heap, c: Heap)
    requires Keeps(a, b) && Keeps(b, c)
    ensures Keeps(a, c)
  {
  }

  /** Replacing the page state keeps the invariant when no slab page and no boot page is given up. */
  lemma SwapMemory(h: Heap, m: Memory)
    requires Inv(h) && MemInv(m) && SamePlan(h.mem, m)
    requires forall p: nat :: p < |m.used| && h.mem.used[p] ==>
      m.used[p] || !(IsSlabPage(h.pools, p) || PageAddr(p) < m.endOfStruct)
    ensures Inv(h.(mem := m))
  {
    forall i: nat, k: nat | In(h.pools, i, k)
      ensures PageOk(m, At(h.pools, i, k).page)
    {
      assert PageOk(h.mem, At(h.pools, i, k).page);
      assert IsSlabPage(h.pools, At(h.pools, i, k).page);
      SamePlanZoned(h.mem, m, At(h.pools, i, k).page);
    }
  }

  // The slab pages after each elementary update.

  lemma PutPages(ps: Pools, i: nat, k: nat, s: Slab, d: int, p: nat)
    requires In(ps, i, k) && At(ps, i, k).page == s.page
    ensures IsSlabPage(Put(ps, i, k, s, d), p) <==> IsSlabPage(ps, p)
  {
    var q := Put(ps, i, k, s, d);
    Positions(ps, i, k, s, d);
    forall i': nat, k': nat | In(ps, i', k')
      ensures In(q, i', k') && At(q, i', k').page == At(ps, i', k').page
    {
    }
  }

  lemma LinkPages(ps: Pools, i: nat, s: Slab, p: nat)
    requires i < |ps|
    ensures IsSlabPage(Link(ps, i, s), p) <==> IsSlabPage(ps, p) || p == s.page
  {
    var q := Link(ps, i, s);
    Positions(ps, i, 0, s, 0);
    assert In(q, i, |ps[i].ring|);
    forall i': nat, k': nat | In(ps, i', k')
      ensures In(q, i', k') && At(q, i', k') == At(ps, i', k')
    {
    }
  }

  lemma UnlinkPages(ps: Pools, i: nat, k: nat, p: nat)
    requires In(ps, i, k) && PagesDistinct(ps)
    ensures IsSlabPage(Unlink(ps, i, k), p) <==> IsSlabPage(ps, p) && p != At(ps, i, k).page
  {
    var q := Unlink(ps, i, k);
    Positions(ps, i, k, At(ps, i, k), 0);
    if IsSlabPage(q, p) {
      var i': nat, k': nat :| In(q, i', k') && At(q, i', k').page == p;
      assert In(ps, i', Back(i, k, i', k'));
    }
    if IsSlabPage(ps, p) && p != At(ps, i, k).page {
      var i': nat, k': nat :| In(ps, i', k') && At(ps, i', k').page == p;
      assert In(q, i', if i' == i && k' > k then k' - 1 else k');
    }
  }

  /** The search of kfree is exact: pages are distinct, so it finds the one slab of a page. */
  lemma {:induction false} LocateIs(ps: Pools, i: nat, k: nat, i': nat, k': nat)
    requires PagesDistinct(ps) && In(ps, i, k)
    requires i' < i || (i' == i && k' <= k)
    ensures Locate(ps, At(ps, i, k).page, i', k') == Some((i, k))
    decreases |ps| - i', if i' < |ps| then |ps[i'].ring| - k' else 0
  {
    if k' >= |ps[i'].ring| {
      LocateIs(ps, i, k, i' + 1, 0);
    } else if ps[i'].ring[k'].page != At(ps, i, k).page {
      LocateIs(ps, i, k, i', k' + 1);
    } else {
      assert In(ps, i', k');
    }
  }

  // ---------------------------------------------------------------- taking an object from a slab

  /** The full description of a successful allocation of o. */
  ghost predicate Added(h: Heap, h': Heap, o: Obj) {
    && !Live(h.pools, o)
    && (forall x :: Live(h'.pools, x) <==> Live(h.pools, x) || x == o)
    && (forall x :: IsMeta(h'.pools, x) <==> IsMeta(h.pools, x))
  }

  ghost predicate SameObjects(h: Heap, h': Heap) {
    forall x :: (Live(h'.pools, x) <==> Live(h.pools, x)) && (IsMeta(h'.pools, x) <==> IsMeta(h.pools, x))
  }

  /** A slab with a free slot always yields an object: its lowest clear slot. */
  lemma SlabMallocOk(h: Heap, i: nat, k: nat)
    requires Inv(h) && In(h.pools, i, k) && At(h.pools, i, k).free > 0
    ensures var (h', r) := SlabMalloc(h, i, k);
      && Inv(h') && h'.mem == h.mem && Keeps(h, h')
      && (forall c: nat :: c < CLASSES && c != i ==> h'.pools[c] == h.pools[c])
      && r == Some(Obj(i, At(h.pools, i, k).page, FirstClear(At(h.pools, i, k).bits, 0, At(h.pools, i, k).count)))
      && r.value.slot < At(h.pools, i, k).count
      && Added(h, h', r.value)
  {
    var s := At(h.pools, i, k);
    assert SlabOk(i, k, s);
    UsedExtremes(s.bits, s.count);
    var j := FirstClear(s.bits, 0, s.count);
    OccupyInv(h.pools, i, k, j);
    var ps := Put(h.pools, i, k, Occupied(s, j), 1);
    forall p: nat
      ensures IsSlabPage(ps, p) <==> IsSlabPage(h.pools, p)
    {
      PutPages(h.pools, i, k, Occupied(s, j), 1, p);
    }
    SamePlaces(h, ps, i, k, Occupied(s, j), 1);
  }

  /** Rewriting a slab in place keeps the page and boot parts of the invariant. */
  lemma SamePlaces(h: Heap, ps: Pools, i: nat, k: nat, t: Slab, d: int)
    requires Inv(h) && In(h.pools, i, k) && SameSlot(At(h.pools, i, k), t)
    requires ps == Put(h.pools, i, k, t, d)
    ensures SlabPagesOk(Heap(ps, h.mem)) && BootOk(Heap(ps, h.mem))
  {
    Positions(h.pools, i, k, t, d);
    forall i': nat, k': nat | In(ps, i', k')
      ensures PageOk(h.mem, At(ps, i', k').page)
    {
      assert In(h.pools, i', k') && PageOk(h.mem, At(h.pools, i', k').page);
    }
    forall i': nat, k': nat, b: bool | In(ps, i', k') && Ref(ps, i', k', b).Static?
      ensures Ref(ps, i', k', b).addr + (if b then HEADER else MapBytes(At(ps, i', k').count)) <= h.mem.endOfStruct
    {
      assert In(h.pools, i', k') && Ref(h.pools, i', k', b) == Ref(ps, i', k', b);
    }
  }

  /** A pool with free objects finds them, and the search never comes back empty handed. */
  lemma PoolHasRoom(h: Heap, i: nat)
    requires Inv(h) && i < CLASSES && h.pools[i].free != 0
    ensures In(h.pools, i, FindSlab(h.pools[i].ring, 0))
    ensures At(h.pools, i, FindSlab(h.pools[i].ring, 0)).free > 0
  {
    assert In(h.pools, i, 0) && PoolOk(h.pools[i]);
    forall l | 0 <= l < |h.pools[i].ring|
      ensures h.pools[i].ring[l].free >= 0
    {
      assert In(h.pools, i, l) && SlabOk(i, l, At(h.pools, i, l));
      UsedExtremes(At(h.pools, i, l).bits, At(h.pools, i, l).count);
    }
    WalkFindsRoom(h.pools[i].ring, 0);
  }

  /** Linking an empty slab and taking its first object. */
  lemma GrowOk(h: Heap, i: nat, s: Slab)
    requires Inv(h) && Linkable(h.pools, i, s) && s.count > 0 && PageOk(h.mem, s.page)
    requires !s.header.Static? && !s.colorMap.Static?
    ensures var (h', r) := Grow(h, i, s);
      && Inv(h') && r == Some(Obj(i, s.page, 0)) && h'.mem == h.mem
      && (forall c: nat :: c < CLASSES && c != i ==> h'.pools[c] == h.pools[c])
      && !Live(h.pools, r.value)
      && (forall x :: Live(h'.pools, x) <==> Live(h.pools, x) || x == r.value)
      && (forall x :: IsMeta(h'.pools, x) <==> IsMeta(h.pools, x) || KeptBy(s, x))
      && (forall p: nat :: IsSlabPage(h'.pools, p) <==> IsSlabPage(h.pools, p) || p == s.page)
  {
    hide Live, IsMeta, MemInv, Table, Conserved;
    var ps := Link(h.pools, i, s);
    var k := |h.pools[i].ring|;
    LinkInv(h.pools, i, s);
    Positions(h.pools, i, 0, s, 0);
    var h1 := Heap(ps, h.mem);
    forall i': nat, k': nat | In(ps, i', k')
      ensures PageOk(h.mem, At(ps, i', k').page)
      ensures !(i' == i && k' == k) ==> In(h.pools, i', k') && At(ps, i', k') == At(h.pools, i', k')
    {
      if !(i' == i && k' == k) {
        assert In(h.pools, i', k') && PageOk(h.mem, At(h.pools, i', k').page);
      }
    }
    assert BootOk(h1) by {
      forall i': nat, k': nat, b: bool | In(ps, i', k') && Ref(ps, i', k', b).Static?
        ensures Ref(ps, i', k', b).addr + (if b then HEADER else MapBytes(At(ps, i', k').count)) <= h.mem.endOfStruct
      {
        assert Ref(ps, i', k', b) == Ref(h.pools, i', k', b);
      }
    }
    UsedExtremes(s.bits, s.count);
    assert At(ps, i, k) == s;
    assert FirstClear(s.bits, 0, s.count) == 0;
    SlabMallocOk(h1, i, k);
    forall p: nat
      ensures IsSlabPage(Grow(h, i, s).0.pools, p) <==> IsSlabPage(h.pools, p) || p == s.page
    {
      LinkPages(h.pools, i, s, p);
      PutPages(ps, i, k, Occupied(s, 0), 1, p);
    }
  }
}
