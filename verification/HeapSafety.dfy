/** Memory safety of the heap, undoing an allocation, and whole runs. */
module HeapSafety {
  import opened Pages
  import opened Heap
  import opened HeapInvariant
  import opened HeapOperations
  import opened HeapCalls
  import opened HeapSupply
  import opened HeapTheorems

  // ---------------------------------------------------------------- byte ranges

  predicate Disjoint(a: int, n: nat, b: int, m: nat) {
    a + n <= b || b + m <= a
  }

  lemma LiveSlot(h: Heap, o: Obj) returns (k: nat)
    requires Inv(h) && Live(h.pools, o)
    ensures o.cls < CLASSES && In(h.pools, o.cls, k)
    ensures At(h.pools, o.cls, k).page == o.page && o.slot < Capacity(o.cls, k) <= FullCount(o.cls)
    ensures PageOk(h.mem, o.page)
  {
    k :| In(h.pools, o.cls, k) && Holds(At(h.pools, o.cls, k), o);
    assert SlabOk(o.cls, k, At(h.pools, o.cls, k));
    assert PageOk(h.mem, At(h.pools, o.cls, k).page);
    if o.cls < LARGE {
      TailFits(o.cls);
    }
  }

  /** Two different allocated objects, the heap's own headers and bitmaps included, share no byte. */
  lemma LiveObjectsDisjoint(h: Heap, o: Obj, x: Obj)
    requires Inv(h) && Live(h.pools, o) && Live(h.pools, x) && o != x
    ensures o.cls < CLASSES && x.cls < CLASSES
    ensures Disjoint(Addr(o), Size(o.cls), Addr(x), Size(x.cls))
  {
    var k := LiveSlot(h, o);
    var l := LiveSlot(h, x);
    if o.page == x.page {
      assert o.cls == x.cls && k == l;
      SlotsApart(o.slot, x.slot, Size(o.cls));
    } else {
      AddressDecodes(o);
      AddressDecodes(x);
      PagesApart(o.page, x.page);
    }
  }

  lemma SlotsApart(j: nat, l: nat, s: nat)
    requires j != l
    ensures Disjoint(j * s, s, l * s, s)
  {
    if j < l {
      assert (j + 1) * s <= l * s;
    } else {
      assert (l + 1) * s <= j * s;
    }
  }

  lemma PagesApart(p: nat, q: nat)
    requires p != q
    ensures Disjoint(PageAddr(p), PAGE, PageAddr(q), PAGE)
  {
  }

  /** Address of the header or of the bitmap of a slab of pool i. */
  function PlaceOf(i: nat, s: Slab, header: bool): int
    requires i < CLASSES
  {
    match if header then s.header else s.colorMap
    case Static(addr) => addr
    case Tail => PageAddr(s.page) + PAGE - PAGE / Size(i) / 8 - (if header then HEADER else 0)
    case Kept(o) => if o.cls < CLASSES then Addr(o) else 0
  }

  /** o overlaps neither the header nor the bitmap of slab k of pool i, unless it is that header or that
      bitmap. */
  predicate Clear(ps: Pools, o: Obj, i: nat, k: nat)
    requires i < CLASSES && In(ps, i, k)
  {
    var s := At(ps, i, k);
    && o.cls < CLASSES
    && (s.header.Kept? ==> s.header.obj.cls < CLASSES) && (s.colorMap.Kept? ==> s.colorMap.obj.cls < CLASSES)
    && (s.header == Kept(o) || Disjoint(Addr(o), Size(o.cls), PlaceOf(i, s, true), HEADER))
    && (s.colorMap == Kept(o) || Disjoint(Addr(o), Size(o.cls), PlaceOf(i, s, false), MapBytes(s.count)))
  }

  /** No allocated object overlaps the header or the bitmap of any slab, wherever those are kept: not
      those of callers, nor the objects in which the heap keeps other headers and bitmaps. */
  lemma ObjectsAvoidBookkeeping(h: Heap, o: Obj, i: nat, k: nat)
    requires Inv(h) && Live(h.pools, o) && i < CLASSES && In(h.pools, i, k)
    ensures Clear(h.pools, o, i, k)
  {
    var l := LiveSlot(h, o);
    var s := At(h.pools, i, k);
    assert SlabOk(i, k, s);
    AddressDecodes(o);
    if k == 0 {
      assert Ref(h.pools, i, k, true).Static? && Ref(h.pools, i, k, false).Static?;
    } else if i < LARGE {
      TailAvoided(h, o, l, i, k);
    } else {
      OwnObjects(h, i, k);
      OwnersAreMeta(h, i, k);
      if s.header.obj != o {
        LiveObjectsDisjoint(h, o, s.header.obj);
      }
      if s.colorMap.obj != o {
        LiveObjectsDisjoint(h, o, s.colorMap.obj);
      }
      MapClassIsSmall(i);
      assert KeptBy(s, s.header.obj) && KeptBy(s, s.colorMap.obj);
    }
  }

  lemma TailAvoided(h: Heap, o: Obj, l: nat, i: nat, k: nat)
    requires Inv(h) && i < LARGE && 0 < k && In(h.pools, i, k) && In(h.pools, o.cls, l) && o.cls < CLASSES
    requires At(h.pools, o.cls, l).page == o.page && o.slot < Capacity(o.cls, l) <= FullCount(o.cls)
    requires SlabOk(i, k, At(h.pools, i, k))
    ensures Disjoint(Addr(o), Size(o.cls), PlaceOf(i, At(h.pools, i, k), true), HEADER)
    ensures Disjoint(Addr(o), Size(o.cls), PlaceOf(i, At(h.pools, i, k), false), MapBytes(At(h.pools, i, k).count))
  {
    var s := At(h.pools, i, k);
    TailFits(i);
    AddressDecodes(o);
    if o.page == s.page {
      assert o.cls == i && l == k;
      SlotBelow(o.slot, TailCount(i), Size(i));
    } else {
      PagesApart(o.page, s.page);
      TailInside(i);
    }
  }

  /** In the page of a grown small slab the header comes before the bitmap, and the bitmap ends with the
      page at the latest. */
  lemma TailPlaces(ps: Pools, i: nat, k: nat)
    requires SlabsOk(ps) && i < LARGE && 0 < k && In(ps, i, k)
    ensures var s := At(ps, i, k);
      && PageAddr(s.page) + TailCount(i) * Size(i) <= PlaceOf(i, s, true)
      && PlaceOf(i, s, true) + HEADER <= PlaceOf(i, s, false)
      && PlaceOf(i, s, false) + MapBytes(s.count) <= PageAddr(s.page) + PAGE
  {
    assert SlabOk(i, k, At(ps, i, k));
    TailFits(i);
  }

  lemma SlotBelow(j: nat, n: nat, s: nat)
    requires j < n
    ensures j * s + s <= n * s
  {
    assert (j + 1) * s <= n * s;
  }

  lemma TailInside(i: nat)
    requires i < LARGE
    ensures PAGE >= HEADER + PAGE / Size(i) / 8
  {
  }

  /** The kernel finds the running task by masking the stack pointer to 32 KB: every address inside
      a 32 KB stack object masks to the start of the object. */
  lemma StackMask(o: Obj, rsp: int)
    requires o.cls == 10 && o.slot < FullCount(o.cls)
    requires Addr(o) <= rsp < Addr(o) + Size(o.cls)
    ensures rsp - rsp % 32768 == Addr(o)
  {
    Aligned(o);
  }

  // ---------------------------------------------------------------- choice and undo

  /** Without growth kmalloc takes the lowest clear slot of the first slab that has one. */
  lemma ChoiceIsFirst(h: Heap, i: nat)
    requires Inv(h) && i < CLASSES && h.pools[i].free != 0
    ensures var k := FindSlab(h.pools[i].ring, 0);
      && MallocClass(h, i) == SlabMalloc(h, i, k) && MallocClass(h, i).1.Some?
      && var o := MallocClass(h, i).1.value;
      && In(h.pools, i, k) && o.page == At(h.pools, i, k).page
      && (forall l :: 0 <= l < k ==> h.pools[i].ring[l].free == 0)
      && o.slot < At(h.pools, i, k).count <= |At(h.pools, i, k).bits|
      && !At(h.pools, i, k).bits[o.slot]
      && (forall l :: 0 <= l < o.slot ==> At(h.pools, i, k).bits[l])
  {
    assert In(h.pools, i, 0) && PoolOk(h.pools[i]);
    PoolHasRoom(h, i);
    var k := FindSlab(h.pools[i].ring, 0);
    SlabMallocOk(h, i, k);
    assert SlabOk(i, k, At(h.pools, i, k));
    FreeNonNegative(h, i);
    WalkFindsRoom(h.pools[i].ring, 0);
  }

  lemma FreeNonNegative(h: Heap, i: nat)
    requires Inv(h) && i < CLASSES
    ensures forall l :: 0 <= l < |h.pools[i].ring| ==> h.pools[i].ring[l].free >= 0
  {
    forall l | 0 <= l < |h.pools[i].ring|
      ensures h.pools[i].ring[l].free >= 0
    {
      assert In(h.pools, i, l) && SlabOk(i, l, At(h.pools, i, l));
      UsedExtremes(At(h.pools, i, l).bits, At(h.pools, i, l).count);
    }
  }

  /** kfree right after a kmalloc that did not grow its pool gives the whole heap back, if and only
      if the slab the object came from was not already due for release. */
  lemma FreeUndoesMalloc(h: Heap, i: nat)
    requires Inv(h) && i < CLASSES && h.pools[i].free != 0
    ensures var k := FindSlab(h.pools[i].ring, 0);
      var (h', r) := MallocClass(h, i);
      && r.Some? && In(h.pools, i, k) && Kfree.requires(h', Addr(r.value)) && Kfree(h', Addr(r.value)).1
      && (Kfree(h', Addr(r.value)).0 == h <==> !ShouldShrink(h.pools, i, k))
  {
    var k := FindSlab(h.pools[i].ring, 0);
    PoolHasRoom(h, i);
    ChoiceIsFirst(h, i);
    SlabMallocOk(h, i, k);
    var (h', r) := MallocClass(h, i);
    var s, o := At(h.pools, i, k), r.value;
    assert SlabOk(i, k, s);
    Positions(h.pools, i, k, Occupied(s, o.slot), 1);
    LocateIs(h'.pools, i, k, 0, 0);
    assert o.slot < FullCount(i) by { CapacityFits(i, k); }
    AddressDecodes(o);
    PutUndone(h.pools, i, k, o.slot);
    if ShouldShrink(h.pools, i, k) {
      ShrinkShortens(h', h, i, k, o.slot);
    }
  }

  lemma CapacityFits(i: nat, k: nat)
    requires i < CLASSES
    ensures Capacity(i, k) <= FullCount(i)
  {
    if i < LARGE {
      TailFits(i);
    }
  }

  lemma PutUndone(ps: Pools, i: nat, k: nat, j: nat)
    requires Shaped(ps) && In(ps, i, k) && j < At(ps, i, k).count && MapFits(At(ps, i, k))
    requires !At(ps, i, k).bits[j]
    ensures var q := Put(ps, i, k, Occupied(At(ps, i, k), j), 1);
      Shaped(q) && In(q, i, k) && j < |At(q, i, k).bits| && ClearSlot(q, i, k, j) == ps
  {
    var s := At(ps, i, k);
    var q := Put(ps, i, k, Occupied(s, j), 1);
    ShapedAfter(ps, i, k, Occupied(s, j), 1);
    assert s.bits[j := true][j := false] == s.bits;
    assert Released(Occupied(s, j), j) == s;
    assert ps[i].ring[k := Occupied(s, j)][k := s] == ps[i].ring;
    assert ClearSlot(q, i, k, j)[i] == ps[i];
    assert ClearSlot(q, i, k, j) == ps;
  }

  /** A release of the slab leaves its pool with one slab less. */
  lemma ShrinkShortens(h': Heap, h: Heap, i: nat, k: nat, j: nat)
    requires Inv(h) && i < CLASSES && In(h.pools, i, k)
    requires Shaped(h'.pools) && In(h'.pools, i, k) && j < |At(h'.pools, i, k).bits|
    requires ClearSlot(h'.pools, i, k, j) == h.pools && h'.mem == h.mem && ShouldShrink(h.pools, i, k)
    ensures |FreeAt(h', i, k, j).pools| == CLASSES
    ensures |FreeAt(h', i, k, j).pools[i].ring| == |h.pools[i].ring| - 1
  {
    if i >= LARGE {
      DestroyOk(h, i, k);
    }
  }

  /** What kfree leaves in the pool of the freed object: one more free object; or, when it was the last of a
      slab other than cache_pool and the pool has one and a half slabs of free objects with it, the ring
      without that slab, and still half a slab free. */
  lemma FreedPool(h: Heap, i: nat, k: nat, j: nat)
    requires Inv(h) && i < CLASSES && In(h.pools, i, k)
    requires Releasable(h.pools, i, k, j)
    ensures var h' := FreeAt(h, i, k, j);
      var ps, s := ClearSlot(h.pools, i, k, j), At(h.pools, i, k);
      var goes := s.using == 1 && h.pools[i].free + 1 >= s.count * 3 / 2 && k > 0;
      && |h'.pools| == CLASSES
      && (!goes ==> h'.pools[i] == ps[i] && h'.pools[i].free == h.pools[i].free + 1
                    && |h'.pools[i].ring| == |h.pools[i].ring|)
      && (goes ==>
            && h'.pools[i].ring == h.pools[i].ring[..k] + h.pools[i].ring[k + 1..]
            && h'.pools[i].free == h.pools[i].free + 1 - s.count >= s.count / 2)
  {
    var ps := ClearSlot(h.pools, i, k, j);
    ClearOk(h, i, k, j);
    if ShouldShrink(ps, i, k) {
      assert ps[i].ring[..k] == h.pools[i].ring[..k] && ps[i].ring[k + 1..] == h.pools[i].ring[k + 1..];
      assert At(ps, i, k).count == At(h.pools, i, k).count;
      if i >= LARGE {
        DestroyOk(Heap(ps, h.mem), i, k);
      }
    }
  }

  // ---------------------------------------------------------------- whole runs

  /** What a caller may do: use kmalloc and kfree, and take and give back whole pages, as the fork of a
      process does for its stack. */
  datatype Op = Malloc(size: nat) | Free(obj: Obj) | TakePage | GivePage(page: nat)

  /** What a caller holds. */
  datatype Client = Client(objs: set<Obj>, pages: set<nat>)

  /** Only what is held is given back. */
  predicate Legal(c: Client, op: Op) {
    match op
    case Free(o) => o in c.objs
    case GivePage(p) => p in c.pages
    case _ => true
  }

  /** One call: the heap after it and what the client holds after it. */
  ghost function Step(h: Heap, c: Client, op: Op): (r: (Heap, Client))
    requires Shaped(h.pools)
    ensures Shaped(r.0.pools)
  {
    match op
    case Malloc(size) =>
      var (h', r) := Kmalloc(h, size);
      (h', if r.Some? then c.(objs := c.objs + {r.value}) else c)
    case Free(o) =>
      if o.cls < CLASSES && Kfree.requires(h, Addr(o)) then (Kfree(h, Addr(o)).0, c.(objs := c.objs - {o})) else (h, c)
    case TakePage =>
      var (m, r) := AllocPages(h.mem, ZoneNormal, 1);
      (h.(mem := m), if r.Some? then c.(pages := c.pages + {r.value}) else c)
    case GivePage(p) => (h.(mem := DropPage(h.mem, p)), c.(pages := c.pages - {p}))
  }

  /** The client holds exactly the objects that are no slab's own, and pages in use that are no slab's. */
  ghost predicate Owns(h: Heap, c: Client) {
    && (forall x :: User(h.pools, x) <==> x in c.objs)
    && (forall p :: p in c.pages ==> OwnPage(h, p))
  }

  ghost predicate OwnPage(h: Heap, p: nat) {
    PageOk(h.mem, p) && !IsSlabPage(h.pools, p)
  }

  /** A page in use that is neither a slab's nor the client's: it belongs to somebody else. */
  ghost predicate Others(h: Heap, c: Client, p: nat) {
    p < |h.mem.used| && h.mem.used[p] && !IsSlabPage(h.pools, p) && p !in c.pages
  }

  /** Free pages, slabs and the client's pages together. */
  function Account(h: Heap, c: Client): int {
    Balance(h) + |c.pages|
  }

  lemma StepOk(h: Heap, c: Client, op: Op)
    requires Inv(h) && Owns(h, c) && Legal(c, op)
    ensures var (h', c') := Step(h, c, op);
      && Inv(h') && Owns(h', c') && Account(h', c') == Account(h, c)
      && (forall p :: Others(h, c, p) ==> Others(h', c', p))
  {
    hide Inv, Live, IsMeta, Exhausted, Balance, Kmalloc, MallocClass, FreeAt, Addr, PageOk, IsSlabPage;
    match op
    case Malloc(size) =>
      KmallocOk(h, size);
      var (h', r) := Kmalloc(h, size);
      if r.None? {
        SameUsers(h, h');
      }
      PagesStay(h, h', c);
    case Free(o) =>
      assert User(h.pools, o);
      UserMayBeFreed(h, o);
      KfreeOk(h, Addr(o));
      PagesStay(h, Kfree(h, Addr(o)).0, c);
    case TakePage => TakePageOk(h, c);
    case GivePage(p) => GivePageOk(h, c, p);
  }

  /** The heap leaves pages that are not its own where they are. */
  lemma PagesStay(h: Heap, h': Heap, c: Client)
    requires Keeps(h, h')
    ensures forall p :: p in c.pages && OwnPage(h, p) ==> OwnPage(h', p)
    ensures forall p :: Others(h, c, p) ==> Others(h', c, p)
  {
    forall p | p in c.pages && OwnPage(h, p)
      ensures OwnPage(h', p)
    {
      PageStays(h, h', p);
    }
  }

  lemma TakePageOk(h: Heap, c: Client)
    requires Inv(h) && Owns(h, c)
    ensures var (h', c') := Step(h, c, TakePage);
      && Inv(h') && Owns(h', c') && Account(h', c') == Account(h, c)
      && (forall p :: Others(h, c, p) ==> Others(h', c', p))
  {
    hide MemInv, Live, IsMeta, User, AllocPages, PoolsInv, IsSlabPage;
    var z := AllocOneOk(h.mem);
    var (m, r) := AllocPages(h.mem, ZoneNormal, 1);
    if r.Some? {
      var p := r.value;
      SwapMemory(h, m);
      SlabPagesUsed(h, p);
      PageJoins(h, c, m, p);
    }
  }

  /** A page that alloc_pages hands out becomes one of the client's. */
  lemma PageJoins(h: Heap, c: Client, m: Memory, p: nat)
    requires Owns(h, c) && SamePlan(h.mem, m) && p < |h.mem.used| && !h.mem.used[p] && m.used == h.mem.used[p := true]
    requires Zoned(m, p) && !IsSlabPage(h.pools, p) && PageAddr(p) >= h.mem.endOfStruct
    ensures Owns(h.(mem := m), c.(pages := c.pages + {p})) && |c.pages + {p}| == |c.pages| + 1
    ensures forall q :: Others(h, c, q) ==> Others(h.(mem := m), c.(pages := c.pages + {p}), q)
  {
    hide Live, IsMeta, User, IsSlabPage;
    assert p !in c.pages by {
      assert p in c.pages ==> OwnPage(h, p);
    }
    forall q | q in c.pages + {p}
      ensures OwnPage(h.(mem := m), q)
    {
      if q != p {
        assert OwnPage(h, q);
        SamePlanZoned(h.mem, m, q);
      }
    }
  }

  lemma SlabPagesUsed(h: Heap, p: nat)
    requires Inv(h) && p < |h.mem.used| && !h.mem.used[p]
    ensures !IsSlabPage(h.pools, p) && PageAddr(p) >= h.mem.endOfStruct
  {
    forall i: nat, k: nat | In(h.pools, i, k)
      ensures At(h.pools, i, k).page != p
    {
      assert PageOk(h.mem, At(h.pools, i, k).page);
    }
  }

  lemma GivePageOk(h: Heap, c: Client, p: nat)
    requires Inv(h) && Owns(h, c) && p in c.pages
    ensures var (h', c') := Step(h, c, GivePage(p));
      && Inv(h') && Owns(h', c') && Account(h', c') == Account(h, c)
      && (forall q :: Others(h, c, q) ==> Others(h', c', q))
  {
    hide Inv, Live, IsMeta, User, IsSlabPage, DropPage, Balance;
    assert OwnPage(h, p);
    ReturnPage(h, p);
    var m := DropPage(h.mem, p);
    forall q | q in c.pages - {p}
      ensures OwnPage(h.(mem := m), q)
    {
      assert OwnPage(h, q);
      SamePlanZoned(h.mem, m, q);
    }
  }

  lemma SameUsers(h: Heap, h': Heap)
    requires SameObjects(h, h')
    ensures forall x :: User(h'.pools, x) <==> User(h.pools, x)
  {
  }

  /** The address kmalloc returned leads kfree to exactly the object behind it. */
  lemma UserMayBeFreed(h: Heap, o: Obj)
    requires Inv(h) && User(h.pools, o)
    ensures o.cls < CLASSES && MayFree(h, Addr(o))
    ensures Locate(h.pools, PageOf(Addr(o)), 0, 0).Some? && Target(h, Addr(o)) == o
  {
    var k: nat :| In(h.pools, o.cls, k) && Holds(At(h.pools, o.cls, k), o);
    assert SlabOk(o.cls, k, At(h.pools, o.cls, k));
    CapacityFits(o.cls, k);
    AddressDecodes(o);
    LocateIs(h.pools, o.cls, k, 0, 0);
  }

  ghost predicate LegalRun(h: Heap, c: Client, ops: seq<Op>)
    requires Shaped(h.pools)
    decreases |ops|
  {
    ops == [] || (Legal(c, ops[0]) && LegalRun(Step(h, c, ops[0]).0, Step(h, c, ops[0]).1, ops[1..]))
  }

  ghost function Run(h: Heap, c: Client, ops: seq<Op>): (Heap, Client)
    requires Shaped(h.pools)
    decreases |ops|
  {
    if ops == [] then (h, c) else Run(Step(h, c, ops[0]).0, Step(h, c, ops[0]).1, ops[1..])
  }

  /** Over every run of kmalloc, kfree and page requests, however the pools grow and shrink on the way:
      the invariant holds, the client owns exactly what it was given and has not given back, no page is
      lost, and pages of others stay theirs. */
  lemma {:induction false} RunIsSafe(h: Heap, c: Client, ops: seq<Op>)
    requires Inv(h) && Owns(h, c) && LegalRun(h, c, ops)
    ensures var (h', c') := Run(h, c, ops);
      && Inv(h') && Owns(h', c') && Account(h', c') == Account(h, c)
      && (forall p :: Others(h, c, p) ==> Others(h', c', p))
    decreases |ops|
  {
    if ops != [] {
      hide Inv, Owns, Account, Others, Legal;
      StepOk(h, c, ops[0]);
      var (h1, c1) := Step(h, c, ops[0]);
      RunIsSafe(h1, c1, ops[1..]);
    }
  }

  /** So after every run no two allocated objects share a byte, the heap's own included, and none lies
      over a header or a bitmap other than its own, or in a page of the client; the client's objects are
      no header and no bitmap. */
  lemma RunKeepsObjectsApart(h: Heap, c: Client, ops: seq<Op>)
    requires Inv(h) && Owns(h, c) && LegalRun(h, c, ops)
    ensures var (h', c') := Run(h, c, ops);
      && (forall o, x :: Live(h'.pools, o) && Live(h'.pools, x) && o != x ==> Apart(o, x))
      && (forall o, i: nat, k: nat :: Live(h'.pools, o) && i < CLASSES && In(h'.pools, i, k) ==> Clear(h'.pools, o, i, k))
      && (forall o, p :: Live(h'.pools, o) && p in c'.pages ==> o.page != p)
      && (forall o :: o in c'.objs ==> Live(h'.pools, o) && !IsMeta(h'.pools, o))
  {
    RunIsSafe(h, c, ops);
    var (h', c') := Run(h, c, ops);
    hide Inv, Run, LegalRun;
    forall o, x | Live(h'.pools, o) && Live(h'.pools, x) && o != x
      ensures Apart(o, x)
    {
      LiveObjectsDisjoint(h', o, x);
    }
    forall o, i: nat, k: nat | Live(h'.pools, o) && i < CLASSES && In(h'.pools, i, k)
      ensures Clear(h'.pools, o, i, k)
    {
      ObjectsAvoidBookkeeping(h', o, i, k);
    }
    forall o, p | Live(h'.pools, o) && p in c'.pages
      ensures o.page != p
    {
      assert OwnPage(h', p);
      var k := LiveSlot(h', o);
    }
    assert forall o :: o in c'.objs ==> User(h'.pools, o);
  }

  predicate Apart(o: Obj, x: Obj) {
    o.cls < CLASSES && x.cls < CLASSES && Disjoint(Addr(o), Size(o.cls), Addr(x), Size(x.cls))
  }
}
