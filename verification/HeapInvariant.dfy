/** The invariant of the slab heap and what the four elementary updates - occupying a slot,
    releasing one, linking a slab and unlinking one - do to it. */
module HeapInvariant {
  import opened Pages
  import opened Heap

  // ---------------------------------------------------------------- definitions

  /** Number of set bits among the first n. */
  function UsedIn(bits: seq<bool>, n: nat): nat
    requires n <= |bits|
    decreases n
  {
    if n == 0 then 0 else UsedIn(bits, n - 1) + (if bits[n - 1] then 1 else 0)
  }

  function SumFree(ring: seq<Slab>): int {
    if ring == [] then 0 else SumFree(ring[..|ring| - 1]) + ring[|ring| - 1].free
  }

  function SumUsing(ring: seq<Slab>): int {
    if ring == [] then 0 else SumUsing(ring[..|ring| - 1]) + ring[|ring| - 1].using
  }

  /** Capacity of slab k of pool i: only the grown slabs of the small classes share their page with
      header and bitmap. */
  function Capacity(i: nat, k: nat): nat
    requires i < CLASSES
  {
    if k == 0 || i >= LARGE then FullCount(i) else TailCount(i)
  }

  /** Where slab k of pool i keeps header and bitmap. */
  predicate PlacesOk(i: nat, k: nat, s: Slab)
    requires i < CLASSES
  {
    if k == 0 then s.header.Static? && s.colorMap.Static?
    else if i < LARGE then s.header.Tail? && s.colorMap.Tail?
    else
      && s.header.Kept? && s.header.obj.cls == HEADER_CLASS
      && s.colorMap.Kept? && s.colorMap.obj.cls == MapClass(i)
  }

  predicate BitsOk(s: Slab) {
    && |s.bits| == 8 * MapBytes(s.count)
    && (forall j :: s.count <= j < |s.bits| ==> s.bits[j])
    && s.using == UsedIn(s.bits, s.count)
    && s.using + s.free == s.count
  }

  predicate SlabOk(i: nat, k: nat, s: Slab)
    requires i < CLASSES
  {
    s.count == Capacity(i, k) && PlacesOk(i, k, s) && BitsOk(s)
  }

  predicate PoolOk(p: Pool) {
    p.free == SumFree(p.ring) && p.using == SumUsing(p.ring)
  }

  predicate Holds(s: Slab, o: Obj) {
    s.page == o.page && o.slot < s.count && o.slot < |s.bits| && s.bits[o.slot]
  }

  /** o is an allocated object. */
  ghost predicate Live(ps: Pools, o: Obj) {
    exists k: nat :: In(ps, o.cls, k) && Holds(At(ps, o.cls, k), o)
  }

  function Ref(ps: Pools, i: nat, k: nat, header: bool): Place
    requires In(ps, i, k)
  {
    if header then At(ps, i, k).header else At(ps, i, k).colorMap
  }

  /** o holds the header or the bitmap of a slab. */
  ghost predicate IsMeta(ps: Pools, o: Obj) {
    exists i: nat, k: nat, b: bool :: In(ps, i, k) && Ref(ps, i, k, b) == Kept(o)
  }

  ghost predicate SlabsOk(ps: Pools) {
    forall i: nat, k: nat :: i < CLASSES && In(ps, i, k) ==> SlabOk(i, k, At(ps, i, k))
  }

  ghost predicate PoolsOk(ps: Pools) {
    forall i: nat :: i < |ps| ==> PoolOk(ps[i])
  }

  ghost predicate PagesDistinct(ps: Pools) {
    forall i: nat, k: nat, i': nat, k': nat ::
      In(ps, i, k) && In(ps, i', k') && At(ps, i, k).page == At(ps, i', k').page ==> i == i' && k == k'
  }

  ghost predicate MetaLive(ps: Pools) {
    forall i: nat, k: nat, b: bool ::
      In(ps, i, k) && Ref(ps, i, k, b).Kept? ==> Live(ps, Ref(ps, i, k, b).obj)
  }

  ghost predicate MetaDistinct(ps: Pools) {
    forall i: nat, k: nat, b: bool, i': nat, k': nat, b': bool ::
      In(ps, i, k) && In(ps, i', k') && Ref(ps, i, k, b).Kept? && Ref(ps, i, k, b) == Ref(ps, i', k', b')
      ==> i == i' && k == k' && b == b'
  }

  ghost predicate PoolsInv(ps: Pools) {
    && Shaped(ps) && SlabsOk(ps) && PoolsOk(ps)
    && PagesDistinct(ps) && MetaLive(ps) && MetaDistinct(ps)
  }

  ghost predicate MemInv(m: Memory) {
    Table(m) && Conserved(m)
  }

  /** The data page of a slab is an allocated page of a zone above the boot data. */
  ghost predicate PageOk(m: Memory, p: nat) {
    Zoned(m, p) && m.used[p] && PageAddr(p) >= m.endOfStruct
  }

  ghost predicate SlabPagesOk(h: Heap) {
    forall i: nat, k: nat :: In(h.pools, i, k) ==> PageOk(h.mem, At(h.pools, i, k).page)
  }

  /** The pages of the boot data, with the first sixteen headers and bitmaps, stay in use. */
  ghost predicate BootOk(h: Heap) {
    && (forall p :: 0 <= p < |h.mem.used| && PageAddr(p) < h.mem.endOfStruct ==> h.mem.used[p])
    && (forall i: nat, k: nat, b: bool :: In(h.pools, i, k) && Ref(h.pools, i, k, b).Static? ==>
          Ref(h.pools, i, k, b).addr + (if b then HEADER else MapBytes(At(h.pools, i, k).count)) <= h.mem.endOfStruct)
  }

  ghost predicate Inv(h: Heap)
    ensures Inv(h) ==> Shaped(h.pools)
  {
    PoolsInv(h.pools) && MemInv(h.mem) && SlabPagesOk(h) && BootOk(h)
  }

  lemma MemoryOf(h: Heap)
    requires Inv(h)
    ensures MemInv(h.mem)
  {
  }

  // ---------------------------------------------------------------- sums and counts

  lemma {:induction false} UsedSame(a: seq<bool>, b: seq<bool>, n: nat)
    requires n <= |a| && n <= |b| && forall j :: 0 <= j < n ==> a[j] == b[j]
    ensures UsedIn(a, n) == UsedIn(b, n)
    decreases n
  {
    if n > 0 {
      UsedSame(a, b, n - 1);
    }
  }

  lemma {:induction false} UsedPut(a: seq<bool>, j: nat, v: bool, n: nat)
    requires j < n <= |a|
    ensures UsedIn(a[j := v], n) == UsedIn(a, n) - (if a[j] then 1 else 0) + (if v then 1 else 0)
    decreases n
  {
    if j == n - 1 {
      UsedSame(a[j := v], a, n - 1);
    } else {
      UsedPut(a, j, v, n - 1);
    }
  }

  /** The used counter is between nothing and everything, and tells both ends apart. */
  lemma {:induction false} UsedExtremes(a: seq<bool>, n: nat)
    requires n <= |a|
    ensures UsedIn(a, n) <= n
    ensures UsedIn(a, n) == 0 <==> forall j :: 0 <= j < n ==> !a[j]
    ensures UsedIn(a, n) == n <==> forall j :: 0 <= j < n ==> a[j]
    decreases n
  {
    if n > 0 {
      UsedExtremes(a, n - 1);
    }
  }

  lemma {:induction false} SumPut(ring: seq<Slab>, k: nat, s: Slab)
    requires k < |ring|
    ensures SumFree(ring[k := s]) == SumFree(ring) - ring[k].free + s.free
    ensures SumUsing(ring[k := s]) == SumUsing(ring) - ring[k].using + s.using
    decreases |ring|
  {
    var n := |ring| - 1;
    if k == n {
      assert ring[k := s][..n] == ring[..n];
    } else {
      assert ring[k := s][..n] == ring[..n][k := s];
      SumPut(ring[..n], k, s);
    }
  }

  lemma SumAppend(ring: seq<Slab>, s: Slab)
    ensures SumFree(ring + [s]) == SumFree(ring) + s.free
    ensures SumUsing(ring + [s]) == SumUsing(ring) + s.using
  {
    assert (ring + [s])[..|ring|] == ring;
  }

  lemma {:induction false} SumRemove(ring: seq<Slab>, k: nat)
    requires k < |ring|
    ensures SumFree(ring[..k] + ring[k + 1..]) == SumFree(ring) - ring[k].free
    ensures SumUsing(ring[..k] + ring[k + 1..]) == SumUsing(ring) - ring[k].using
    decreases |ring|
  {
    var n := |ring| - 1;
    var rest := ring[..k] + ring[k + 1..];
    if k == n {
      assert rest == ring[..n];
    } else {
      assert rest[..n - 1] == ring[..n][..k] + ring[..n][k + 1..];
      SumRemove(ring[..n], k);
    }
  }

  /** A positive total comes from a slab with a free slot, and the walk stops on it. */
  lemma {:induction false} WalkFindsRoom(ring: seq<Slab>, k: nat)
    requires k <= |ring| && ring != []
    requires forall l :: 0 <= l < |ring| ==> ring[l].free >= 0
    requires forall l :: 0 <= l < k ==> ring[l].free == 0
    requires SumFree(ring) != 0
    ensures ring[FindSlab(ring, k)].free > 0
    ensures forall l :: 0 <= l < FindSlab(ring, k) ==> ring[l].free == 0
    decreases |ring| - k
  {
    if k == |ring| {
      SumZero(ring);
    } else if ring[k].free == 0 {
      WalkFindsRoom(ring, k + 1);
    }
  }

  lemma {:induction false} SumZero(ring: seq<Slab>)
    requires forall l :: 0 <= l < |ring| ==> ring[l].free == 0
    ensures SumFree(ring) == 0
  {
    if ring != [] {
      SumZero(ring[..|ring| - 1]);
    }
  }

  lemma {:induction false} SumAtLeast(ring: seq<Slab>, k: nat)
    requires k < |ring|
    requires forall l :: 0 <= l < |ring| ==> ring[l].free >= 0
    ensures SumFree(ring) >= ring[k].free
    decreases |ring|
  {
    var n := |ring| - 1;
    if k < n {
      SumAtLeast(ring[..n], k);
    } else {
      SumNonNegative(ring[..n]);
    }
  }

  lemma {:induction false} SumNonNegative(ring: seq<Slab>)
    requires forall l :: 0 <= l < |ring| ==> ring[l].free >= 0
    ensures SumFree(ring) >= 0
  {
    if ring != [] {
      SumNonNegative(ring[..|ring| - 1]);
    }
  }

  // ---------------------------------------------------------------- changing one slot

  /** Rewriting a slab in place without touching its page, places and capacity. */
  predicate SameSlot(s: Slab, t: Slab) {
    s.(bits := t.bits, using := t.using, free := t.free) == t && |s.bits| == |t.bits|
  }

  lemma PutInv(ps: Pools, i: nat, k: nat, t: Slab, d: int)
    requires PoolsInv(ps) && In(ps, i, k) && SameSlot(At(ps, i, k), t) && BitsOk(t)
    requires t.using == At(ps, i, k).using + d
    requires forall o: Obj :: o.cls == i && IsMeta(ps, o) && Holds(At(ps, i, k), o) ==> Holds(t, o)
    ensures PoolsInv(Put(ps, i, k, t, d))
  {
    var q := Put(ps, i, k, t, d);
    ShapedAfter(ps, i, k, t, d);
    assert PagesDistinct(q) && MetaDistinct(q) && SlabsOk(q) by {
      PutSame(ps, i, k, t, d);
    }
    SumPut(ps[i].ring, k, t);
    forall i': nat | i' < |q|
      ensures PoolOk(q[i'])
    {
      assert PoolOk(ps[i']);
    }
    hide SlabsOk, PagesDistinct, MetaDistinct, PoolOk;
    Positions(ps, i, k, t, d);
    forall i': nat, k': nat, b: bool | In(q, i', k') && Ref(q, i', k', b).Kept?
      ensures Live(q, Ref(q, i', k', b).obj)
    {
      var o := Ref(ps, i', k', b).obj;
      assert Live(ps, o);
      var l: nat :| In(ps, o.cls, l) && Holds(At(ps, o.cls, l), o);
      assert Holds(At(q, o.cls, l), o);
    }
  }

  lemma PutSame(ps: Pools, i: nat, k: nat, t: Slab, d: int)
    requires SlabsOk(ps) && PagesDistinct(ps) && MetaDistinct(ps) && In(ps, i, k) && SameSlot(At(ps, i, k), t) && BitsOk(t)
    ensures var q := Put(ps, i, k, t, d); SlabsOk(q) && PagesDistinct(q) && MetaDistinct(q)
  {
    var q := Put(ps, i, k, t, d);
    Positions(ps, i, k, t, d);
    forall i': nat, k': nat | i' < CLASSES && In(q, i', k')
      ensures SlabOk(i', k', At(q, i', k'))
    {
      assert In(ps, i', k') && SlabOk(i', k', At(ps, i', k'));
    }
    forall i': nat, k': nat, b: bool | In(q, i', k')
      ensures Ref(q, i', k', b) == Ref(ps, i', k', b) && At(q, i', k').page == At(ps, i', k').page
    {
    }
  }

  lemma PutMeta(ps: Pools, i: nat, k: nat, t: Slab, d: int, o: Obj)
    requires In(ps, i, k) && SameSlot(At(ps, i, k), t)
    ensures IsMeta(Put(ps, i, k, t, d), o) <==> IsMeta(ps, o)
  {
    var q := Put(ps, i, k, t, d);
    Positions(ps, i, k, t, d);
    forall i': nat, k': nat, b: bool | In(q, i', k')
      ensures In(ps, i', k') && Ref(q, i', k', b) == Ref(ps, i', k', b)
    {
    }
    if IsMeta(ps, o) {
      var i': nat, k': nat, b: bool :| In(ps, i', k') && Ref(ps, i', k', b) == Kept(o);
      assert In(q, i', k') && Ref(q, i', k', b) == Kept(o);
    }
  }

  /** Only objects of the rewritten slab can change their state. */
  lemma PutLive(ps: Pools, i: nat, k: nat, t: Slab, d: int, o: Obj)
    requires PagesDistinct(ps) && In(ps, i, k) && SameSlot(At(ps, i, k), t)
    ensures Live(Put(ps, i, k, t, d), o)
       <==> if o.cls == i && o.page == t.page then Holds(t, o) else Live(ps, o)
  {
    var q := Put(ps, i, k, t, d);
    Positions(ps, i, k, t, d);
    if Live(q, o) {
      var l: nat :| In(q, o.cls, l) && Holds(At(q, o.cls, l), o);
      assert In(ps, o.cls, l);
      if !(o.cls == i && l == k) {
        assert Holds(At(ps, o.cls, l), o);
      }
    }
    assert In(q, i, k);
    if Live(ps, o) && !(o.cls == i && o.page == t.page) {
      var l: nat :| In(ps, o.cls, l) && Holds(At(ps, o.cls, l), o);
      assert In(q, o.cls, l) && Holds(At(q, o.cls, l), o);
    }
  }

  /** Liveness of an object whose slab is known. */
  lemma LiveAt(ps: Pools, i: nat, k: nat, o: Obj)
    requires PagesDistinct(ps) && In(ps, i, k) && o.cls == i && o.page == At(ps, i, k).page
    ensures Live(ps, o) <==> Holds(At(ps, i, k), o)
  {
    if Live(ps, o) {
      var l: nat :| In(ps, o.cls, l) && Holds(At(ps, o.cls, l), o);
      assert l == k;
    }
  }

  /** Taking a clear slot adds exactly one object, which nothing held before. */
  lemma OccupyInv(ps: Pools, i: nat, k: nat, j: nat)
    requires PoolsInv(ps) && In(ps, i, k) && j < At(ps, i, k).count <= |At(ps, i, k).bits|
    requires !At(ps, i, k).bits[j]
    ensures var q, o := Put(ps, i, k, Occupied(At(ps, i, k), j), 1), Obj(i, At(ps, i, k).page, j);
      && PoolsInv(q) && !Live(ps, o)
      && (forall x :: Live(q, x) <==> Live(ps, x) || x == o)
      && (forall x :: IsMeta(q, x) <==> IsMeta(ps, x))
  {
    var s := At(ps, i, k);
    var t := Occupied(s, j);
    var o := Obj(i, s.page, j);
    assert SlabOk(i, k, s);
    UsedPut(s.bits, j, true, s.count);
    PutInv(ps, i, k, t, 1);
    LiveAt(ps, i, k, o);
    forall x: Obj
      ensures Live(Put(ps, i, k, t, 1), x) <==> Live(ps, x) || x == o
      ensures IsMeta(Put(ps, i, k, t, 1), x) <==> IsMeta(ps, x)
    {
      PutLive(ps, i, k, t, 1, x);
      PutMeta(ps, i, k, t, 1, x);
      if x.cls == i && x.page == s.page {
        LiveAt(ps, i, k, x);
      }
    }
  }

  /** Slot j holds an object of a caller. */
  ghost predicate Releasable(ps: Pools, i: nat, k: nat, j: nat)
    requires In(ps, i, k)
  {
    && j < At(ps, i, k).count <= |At(ps, i, k).bits| && At(ps, i, k).bits[j]
    && !IsMeta(ps, Obj(i, At(ps, i, k).page, j))
  }

  /** Releasing a held slot that no slab uses for itself removes exactly that object. */
  lemma ReleaseInv(ps: Pools, i: nat, k: nat, j: nat)
    requires PoolsInv(ps) && In(ps, i, k) && Releasable(ps, i, k, j)
    ensures var q, o := ClearSlot(ps, i, k, j), Obj(i, At(ps, i, k).page, j);
      && PoolsInv(q) && Live(ps, o)
      && (forall x :: Live(q, x) <==> Live(ps, x) && x != o)
      && (forall x :: IsMeta(q, x) <==> IsMeta(ps, x))
  {
    var s := At(ps, i, k);
    var t := Released(s, j);
    var o := Obj(i, s.page, j);
    assert SlabOk(i, k, s);
    UsedPut(s.bits, j, false, s.count);
    PutInv(ps, i, k, t, -1);
    LiveAt(ps, i, k, o);
    forall x: Obj
      ensures Live(Put(ps, i, k, t, -1), x) <==> Live(ps, x) && x != o
      ensures IsMeta(Put(ps, i, k, t, -1), x) <==> IsMeta(ps, x)
    {
      PutLive(ps, i, k, t, -1, x);
      PutMeta(ps, i, k, t, -1, x);
      if x.cls == i && x.page == s.page {
        LiveAt(ps, i, k, x);
      }
    }
  }

  /** The bits still agree with the counters exactly when the slot was taken. */
  lemma ReleasedBits(s: Slab, j: nat)
    requires BitsOk(s) && j < |s.bits|
    ensures BitsOk(Released(s, j)) <==> j < s.count && s.bits[j]
  {
    if j < s.count {
      UsedPut(s.bits, j, !s.bits[j], s.count);
    } else {
      assert !Released(s, j).bits[j];
    }
  }

  /** Whatever slot kfree toggles, the pools stay right if and only if an object of a caller was in it. */
  lemma ReleaseExact(ps: Pools, i: nat, k: nat, j: nat)
    requires PoolsInv(ps) && i < CLASSES && In(ps, i, k) && j < |At(ps, i, k).bits|
    ensures PoolsInv(ClearSlot(ps, i, k, j)) <==> Releasable(ps, i, k, j)
  {
    var s := At(ps, i, k);
    var t := Released(s, j);
    var q, o := Put(ps, i, k, t, -1), Obj(i, s.page, j);
    assert SlabOk(i, k, s);
    ReleasedBits(s, j);
    if Releasable(ps, i, k, j) {
      ReleaseInv(ps, i, k, j);
    } else if PoolsInv(q) {
      Positions(ps, i, k, t, -1);
      assert SlabOk(i, k, At(q, i, k));
      PutMeta(ps, i, k, t, -1, o);
      PutLive(ps, i, k, t, -1, o);
      MetaIsLive(q, o);
      assert false;
    }
  }

  lemma MetaIsLive(ps: Pools, o: Obj)
    requires PoolsInv(ps) && IsMeta(ps, o)
    ensures Live(ps, o)
  {
    var i: nat, k: nat, b: bool :| In(ps, i, k) && Ref(ps, i, k, b) == Kept(o);
    assert Ref(ps, i, k, b).Kept?;
  }

  // ---------------------------------------------------------------- linking and unlinking

  /** s is an empty slab that may join pool i: its page is no slab's page yet, and header and
      bitmap, if kept in the heap, are two live objects no slab is using. */
  ghost predicate Linkable(ps: Pools, i: nat, s: Slab) {
    && i < CLASSES && In(ps, i, 0)
    && SlabOk(i, |ps[i].ring|, s) && s.using == 0
    && (forall i': nat, k': nat :: In(ps, i', k') ==> At(ps, i', k').page != s.page)
    && (s.header.Kept? ==> Live(ps, s.header.obj) && !IsMeta(ps, s.header.obj))
    && (s.colorMap.Kept? ==> Live(ps, s.colorMap.obj) && !IsMeta(ps, s.colorMap.obj))
    && !(s.header.Kept? && s.header == s.colorMap)
  }

  predicate KeptBy(s: Slab, o: Obj) {
    s.header == Kept(o) || s.colorMap == Kept(o)
  }

  lemma LinkLive(ps: Pools, i: nat, s: Slab, o: Obj)
    requires Linkable(ps, i, s)
    ensures Live(Link(ps, i, s), o) <==> Live(ps, o)
  {
    hide IsMeta;
    var q := Link(ps, i, s);
    Positions(ps, i, 0, s, 0);
    UsedExtremes(s.bits, s.count);
    if Live(q, o) {
      var l: nat :| In(q, o.cls, l) && Holds(At(q, o.cls, l), o);
      assert In(ps, o.cls, l) && Holds(At(ps, o.cls, l), o);
    }
    if Live(ps, o) {
      var l: nat :| In(ps, o.cls, l) && Holds(At(ps, o.cls, l), o);
      assert In(q, o.cls, l) && Holds(At(q, o.cls, l), o);
    }
  }

  lemma LinkOwners(ps: Pools, i: nat, s: Slab, o: Obj)
    requires i < |ps|
    ensures IsMeta(Link(ps, i, s), o) <==> IsMeta(ps, o) || KeptBy(s, o)
  {
    var q := Link(ps, i, s);
    Positions(ps, i, 0, s, 0);
    if IsMeta(q, o) && !KeptBy(s, o) {
      var i': nat, k': nat, b: bool :| In(q, i', k') && Ref(q, i', k', b) == Kept(o);
      assert In(ps, i', k') && Ref(ps, i', k', b) == Kept(o);
    }
    if IsMeta(ps, o) {
      var i': nat, k': nat, b: bool :| In(ps, i', k') && Ref(ps, i', k', b) == Kept(o);
      assert In(q, i', k') && Ref(q, i', k', b) == Kept(o);
    }
    if KeptBy(s, o) {
      assert In(q, i, |ps[i].ring|) && Ref(q, i, |ps[i].ring|, s.header == Kept(o)) == Kept(o);
    }
  }

  lemma LinkInv(ps: Pools, i: nat, s: Slab)
    requires PoolsInv(ps) && Linkable(ps, i, s)
    ensures PoolsInv(Link(ps, i, s))
    ensures forall o :: Live(Link(ps, i, s), o) <==> Live(ps, o)
    ensures forall o :: IsMeta(Link(ps, i, s), o) <==> IsMeta(ps, o) || KeptBy(s, o)
  {
    var q := Link(ps, i, s);
    ShapedAfter(ps, i, 0, s, 0);
    Positions(ps, i, 0, s, 0);
    SumAppend(ps[i].ring, s);
    forall i': nat, k': nat | i' < CLASSES && In(q, i', k')
      ensures SlabOk(i', k', At(q, i', k'))
    {
      if !(i' == i && k' == |ps[i].ring|) {
        assert In(ps, i', k') && SlabOk(i', k', At(ps, i', k'));
      }
    }
    forall i': nat | i' < |q|
      ensures PoolOk(q[i'])
    {
      assert PoolOk(ps[i']);
    }
    forall o: Obj
      ensures Live(q, o) <==> Live(ps, o)
      ensures IsMeta(q, o) <==> IsMeta(ps, o) || KeptBy(s, o)
    {
      LinkLive(ps, i, s, o);
      LinkOwners(ps, i, s, o);
    }
    LinkMeta(ps, i, s);
  }

  lemma LinkMeta(ps: Pools, i: nat, s: Slab)
    requires PoolsInv(ps) && Linkable(ps, i, s)
    requires forall o :: Live(Link(ps, i, s), o) <==> Live(ps, o)
    ensures MetaLive(Link(ps, i, s)) && MetaDistinct(Link(ps, i, s))
  {
    var q := Link(ps, i, s);
    var n := |ps[i].ring|;
    Positions(ps, i, 0, s, 0);
    forall i': nat, k': nat, b: bool | In(q, i', k') && Ref(q, i', k', b).Kept?
      ensures Live(q, Ref(q, i', k', b).obj)
      ensures !(i' == i && k' == n) ==> In(ps, i', k') && Ref(q, i', k', b) == Ref(ps, i', k', b)
                                        && IsMeta(ps, Ref(q, i', k', b).obj)
      ensures i' == i && k' == n ==> !IsMeta(ps, Ref(q, i', k', b).obj)
    {
      if !(i' == i && k' == n) {
        assert In(ps, i', k') && Ref(q, i', k', b) == Ref(ps, i', k', b);
        assert Live(ps, Ref(ps, i', k', b).obj);
      }
    }
  }

  /** Taking an empty slab other than the first off its ring touches no object and frees its header
      and bitmap objects from their duty. */
  lemma UnlinkInv(ps: Pools, i: nat, k: nat)
    requires PoolsInv(ps) && In(ps, i, k) && k != 0 && At(ps, i, k).using == 0
    ensures PoolsInv(Unlink(ps, i, k))
    ensures forall o :: Live(Unlink(ps, i, k), o) <==> Live(ps, o)
    ensures forall o :: IsMeta(Unlink(ps, i, k), o) <==> IsMeta(ps, o) && !KeptBy(At(ps, i, k), o)
  {
    var q, s := Unlink(ps, i, k), At(ps, i, k);
    assert SlabOk(i, k, s);
    ShapedAfter(ps, i, k, s, 0);
    Positions(ps, i, k, s, 0);
    SumRemove(ps[i].ring, k);
    forall i': nat, k': nat | i' < CLASSES && In(q, i', k')
      ensures SlabOk(i', k', At(q, i', k'))
    {
      var l := if i' == i && k' >= k then k' + 1 else k';
      assert In(ps, i', l) && SlabOk(i', l, At(ps, i', l));
    }
    forall i': nat | i' < |q|
      ensures PoolOk(q[i'])
    {
      assert PoolOk(ps[i']);
    }
    forall o: Obj
      ensures Live(q, o) <==> Live(ps, o)
      ensures IsMeta(q, o) <==> IsMeta(ps, o) && !KeptBy(s, o)
    {
      UnlinkLive(ps, i, k, o);
      UnlinkMeta(ps, i, k, o);
    }
    UnlinkDistinct(ps, i, k);
  }

  /** Old position of the slab now at (i', k'). */
  function Back(i: nat, k: nat, i': nat, k': nat): nat {
    if i' == i && k' >= k then k' + 1 else k'
  }

  lemma UnlinkLive(ps: Pools, i: nat, k: nat, o: Obj)
    requires In(ps, i, k) && BitsOk(At(ps, i, k)) && At(ps, i, k).using == 0
    ensures Live(Unlink(ps, i, k), o) <==> Live(ps, o)
  {
    var q, s := Unlink(ps, i, k), At(ps, i, k);
    UsedExtremes(s.bits, s.count);
    Positions(ps, i, k, s, 0);
    if Live(q, o) {
      var l: nat :| In(q, o.cls, l) && Holds(At(q, o.cls, l), o);
      assert In(ps, o.cls, Back(i, k, o.cls, l)) && Holds(At(ps, o.cls, Back(i, k, o.cls, l)), o);
    }
    if Live(ps, o) {
      var l: nat :| In(ps, o.cls, l) && Holds(At(ps, o.cls, l), o);
      var l' := if o.cls == i && l > k then l - 1 else l;
      assert In(q, o.cls, l') && Holds(At(q, o.cls, l'), o);
    }
  }

  lemma UnlinkMeta(ps: Pools, i: nat, k: nat, o: Obj)
    requires MetaDistinct(ps) && In(ps, i, k)
    ensures IsMeta(Unlink(ps, i, k), o) <==> IsMeta(ps, o) && !KeptBy(At(ps, i, k), o)
  {
    var q, s := Unlink(ps, i, k), At(ps, i, k);
    Positions(ps, i, k, s, 0);
    if IsMeta(q, o) {
      var i': nat, k': nat, b: bool :| In(q, i', k') && Ref(q, i', k', b) == Kept(o);
      var l := Back(i, k, i', k');
      assert In(ps, i', l) && Ref(ps, i', l, b) == Kept(o);
      assert KeptBy(s, o) ==> Ref(ps, i, k, s.header == Kept(o)) == Kept(o);
    }
    if IsMeta(ps, o) && !KeptBy(s, o) {
      var i': nat, k': nat, b: bool :| In(ps, i', k') && Ref(ps, i', k', b) == Kept(o);
      var l' := if i' == i && k' > k then k' - 1 else k';
      assert In(q, i', l') && Ref(q, i', l', b) == Kept(o);
    }
  }

  lemma UnlinkDistinct(ps: Pools, i: nat, k: nat)
    requires PoolsInv(ps) && In(ps, i, k) && k != 0
    requires forall o :: Live(Unlink(ps, i, k), o) <==> Live(ps, o)
    ensures PagesDistinct(Unlink(ps, i, k)) && MetaLive(Unlink(ps, i, k)) && MetaDistinct(Unlink(ps, i, k))
  {
    var q := Unlink(ps, i, k);
    Positions(ps, i, k, At(ps, i, k), 0);
    forall i': nat, k': nat, b: bool | In(q, i', k')
      ensures In(ps, i', Back(i, k, i', k'))
      ensures At(q, i', k') == At(ps, i', Back(i, k, i', k'))
      ensures Ref(q, i', k', b) == Ref(ps, i', Back(i, k, i', k'), b)
    {
    }
    forall i': nat, k': nat, i'': nat, k'': nat |
      In(q, i', k') && In(q, i'', k'') && At(q, i', k').page == At(q, i'', k'').page
      ensures i' == i'' && k' == k''
    {
      assert In(ps, i', Back(i, k, i', k')) && In(ps, i'', Back(i, k, i'', k''));
    }
    forall i': nat, k': nat, b: bool, i'': nat, k'': nat, b': bool |
      In(q, i', k') && In(q, i'', k'') && Ref(q, i', k', b).Kept? && Ref(q, i', k', b) == Ref(q, i'', k'', b')
      ensures i' == i'' && k' == k'' && b == b'
    {
      assert In(ps, i', Back(i, k, i', k')) && In(ps, i'', Back(i, k, i'', k''));
      assert Ref(ps, i', Back(i, k, i', k'), b) == Ref(ps, i'', Back(i, k, i'', k''), b');
    }
  }
}
