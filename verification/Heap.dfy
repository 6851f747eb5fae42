/** The slab heap as a value: sixteen pools of slabs on top of the page allocator, and the effect of
    kmalloc and kfree on them. The class in module KernelHeap carries the operations out in place,
    with the nested calls of the original. */
module Heap {
  import opened Options
  import opened Pages

  /** sizeof(struct Slab) */
  const HEADER := 72
  const CLASSES := 16
  /** Classes below this one keep header and bitmap inside the slab's own page. */
  const LARGE := 5
  /** The class of 65536-byte objects, which kmalloc_create does not know. */
  const NO_GROWTH := 11

  /** Object size of each pool: 32 B to 1 MB. */
  function Size(i: nat): (n: nat)
    requires i < CLASSES
    ensures n >= 32
  {
    [32, 64, 128, 256, 512, 1024, 2048, 4096, 8192, 16384, 32768, 65536,
     131072, 262144, 524288, 1048576][i]
  }

  /** Each class holds objects twice as large as the one before, from 32 bytes to 1 MB. */
  lemma ClassSizes(i: nat)
    requires i + 1 < CLASSES
    ensures CLASSES == 16 && Size(0) == 32 && Size(i + 1) == 2 * Size(i) && Size(15) == 1048576
    ensures Size(NO_GROWTH) == 65536 && (Size(i) <= 512 <==> i < LARGE)
  {
  }

  /** An object of the heap: slot `slot` of the slab of class `cls` whose data page is `page`. */
  datatype Obj = Obj(cls: nat, page: nat, slot: nat)

  /** Where a slab keeps its header or its bitmap: in boot memory, at the end of its own page, or
      in an object of the heap. */
  datatype Place = Static(addr: int) | Tail | Kept(obj: Obj)

  /** `struct Slab`; bits are the whole words of color_map. */
  datatype Slab = Slab(header: Place, colorMap: Place, page: nat,
                       using: int, free: int, count: nat, bits: seq<bool>)

  /** `struct Slab_cache`; the ring starts at cache_pool. */
  datatype Pool = Pool(using: int, free: int, ring: seq<Slab>)

  datatype Heap = Heap(pools: seq<Pool>, mem: Memory)

  // ---------------------------------------------------------------- geometry

  /** Objects per slab when the whole page holds data. */
  function FullCount(i: nat): nat
    requires i < CLASSES
  {
    PAGE / Size(i)
  }

  /** Objects per slab when header and bitmap sit at the end of the page. */
  function TailCount(i: nat): nat
    requires i < LARGE
  {
    (PAGE - PAGE / Size(i) / 8 - HEADER) / Size(i)
  }

  /** color_length: bytes of whole words for `count` bits. */
  function MapBytes(count: nat): nat {
    (count + 63) / 64 * 8
  }

  /** A full page of objects, and bitmaps in whole words with less than a word to spare. */
  lemma Geometry(i: nat, count: nat)
    requires i < CLASSES
    ensures FullCount(i) * Size(i) == PAGE
    ensures MapBytes(count) % 8 == 0 && count <= 8 * MapBytes(count) < count + 64
  {
  }

  /** An empty bitmap: the `count` low bits clear and the padding set. */
  function FreshBits(count: nat): seq<bool> {
    seq(8 * MapBytes(count), j => j >= count)
  }

  /** The first pool whose objects are at least `size` bytes; CLASSES when there is none. */
  function ClassOf(size: nat, i: nat): (c: nat)
    requires i <= CLASSES
    ensures i <= c <= CLASSES
    decreases CLASSES - i
  {
    if i == CLASSES || Size(i) >= size then i else ClassOf(size, i + 1)
  }

  /** The pool that serves the bitmap of a slab of class i. */
  function MapClass(i: nat): nat
    requires i < CLASSES
  {
    ClassOf(MapBytes(FullCount(i)), 0)
  }

  /** The pool that serves slab headers. */
  const HEADER_CLASS: nat := 2

  // ---------------------------------------------------------------- shape

  type Pools = seq<Pool>

  predicate In(ps: Pools, i: nat, k: nat) {
    i < |ps| && k < |ps[i].ring|
  }

  function At(ps: Pools, i: nat, k: nat): Slab
    requires In(ps, i, k)
  {
    ps[i].ring[k]
  }

  predicate MapFits(s: Slab) {
    s.count <= |s.bits|
  }

  /** Sixteen non-empty rings, and bitmaps long enough for their slabs. */
  ghost predicate Shaped(ps: Pools) {
    && |ps| == CLASSES
    && (forall i: nat :: i < CLASSES ==> In(ps, i, 0))
    && (forall i: nat, k: nat :: In(ps, i, k) ==> MapFits(At(ps, i, k)))
  }

  /** Replaces one slab and moves d objects from the free to the used total of its pool. */
  function Put(ps: Pools, i: nat, k: nat, s: Slab, d: int): Pools
    requires In(ps, i, k)
  {
    ps[i := Pool(ps[i].using + d, ps[i].free - d, ps[i].ring[k := s])]
  }

  /** A new slab at the end of the ring, which is in front of cache_pool. */
  function Link(ps: Pools, i: nat, s: Slab): Pools
    requires i < |ps|
  {
    ps[i := ps[i].(free := ps[i].free + s.count, ring := ps[i].ring + [s])]
  }

  function Unlink(ps: Pools, i: nat, k: nat): Pools
    requires In(ps, i, k)
  {
    ps[i := ps[i].(free := ps[i].free - ps[i].ring[k].count,
                   ring := ps[i].ring[..k] + ps[i].ring[k + 1..])]
  }

  /** What the three updates leave where. */
  lemma Positions(ps: Pools, i: nat, k: nat, s: Slab, d: int)
    requires i < |ps|
    ensures In(ps, i, k) ==> var q := Put(ps, i, k, s, d);
      |q| == |ps| && forall i': nat, k': nat :: In(q, i', k') <==> In(ps, i', k')
    ensures In(ps, i, k) ==> var q := Put(ps, i, k, s, d);
      forall i': nat, k': nat :: In(q, i', k') ==>
        At(q, i', k') == if i' == i && k' == k then s else At(ps, i', k')
    ensures var q := Link(ps, i, s);
      |q| == |ps| && forall i': nat, k': nat :: In(q, i', k') <==> In(ps, i', k') || (i' == i && k' == |ps[i].ring|)
    ensures var q := Link(ps, i, s);
      forall i': nat, k': nat :: In(q, i', k') ==>
        At(q, i', k') == if i' == i && k' == |ps[i].ring| then s else At(ps, i', k')
    ensures In(ps, i, k) ==> var q := Unlink(ps, i, k);
      |q| == |ps| && forall i': nat, k': nat :: In(q, i', k') <==> In(ps, i', if i' == i && k' >= k then k' + 1 else k')
    ensures In(ps, i, k) ==> var q := Unlink(ps, i, k);
      forall i': nat, k': nat :: In(q, i', k') ==>
        At(q, i', k') == At(ps, i', if i' == i && k' >= k then k' + 1 else k')
  {
  }

  lemma ShapedAfter(ps: Pools, i: nat, k: nat, s: Slab, d: int)
    requires Shaped(ps) && i < CLASSES && MapFits(s)
    ensures Shaped(Link(ps, i, s))
    ensures In(ps, i, k) ==> Shaped(Put(ps, i, k, s, d))
    ensures In(ps, i, k) && k != 0 ==> Shaped(Unlink(ps, i, k))
  {
    Positions(ps, i, k, s, d);
  }

  // ---------------------------------------------------------------- __do_slab_malloc

  /** The lowest clear slot from j on; `count` when there is none. */
  function FirstClear(bits: seq<bool>, j: nat, count: nat): (r: nat)
    requires j <= count <= |bits|
    ensures j <= r <= count && (r < count ==> !bits[r])
    ensures forall l :: j <= l < r ==> bits[l]
    decreases count - j
  {
    if j == count || !bits[j] then j else FirstClear(bits, j + 1, count)
  }

  function Occupied(s: Slab, j: nat): Slab
    requires j < |s.bits|
  {
    s.(bits := s.bits[j := true], using := s.using + 1, free := s.free - 1)
  }

  function Released(s: Slab, j: nat): Slab
    requires j < |s.bits|
  {
    s.(bits := s.bits[j := !s.bits[j]], using := s.using - 1, free := s.free + 1)
  }

  function SlabMalloc(h: Heap, i: nat, k: nat): (r: (Heap, Option<Obj>))
    requires Shaped(h.pools) && In(h.pools, i, k)
    ensures Shaped(r.0.pools)
  {
    var s := At(h.pools, i, k);
    assert MapFits(s);
    var j := FirstClear(s.bits, 0, s.count);
    if j == s.count then (h, None)
    else
      ShapedAfter(h.pools, i, k, Occupied(s, j), 1);
      (h.(pools := Put(h.pools, i, k, Occupied(s, j), 1)), Some(Obj(i, s.page, j)))
  }

  // ---------------------------------------------------------------- growth

  /** alloc_pages(ZONE_NORMAL, 1, 0) and page_init(page, PG_Kernel). */
  function GetPage(m: Memory): (Memory, Option<nat>) {
    var (m', p) := AllocPages(m, ZoneNormal, 1);
    if p.Some? && Backed(m', p.value)
    then (PageInit(m', p.value, m'.pages[p.value].zone.value, {Kernel}), p)
    else (m', p)
  }

  /** free_pages(page, 1) */
  function DropPage(m: Memory, p: nat): Memory {
    if Backed(m, p) then FreeOne(m, p, m.pages[p].zone.value) else m
  }

  /** page_clean(page) and free_pages(page, 1) */
  function PutPage(m: Memory, p: nat): Memory {
    if Backed(m, p) then DropPage(PageClean(m, p, m.pages[p].zone.value), p) else m
  }

  function FreshTail(i: nat, page: nat): Slab
    requires i < LARGE
  {
    Slab(Tail, Tail, page, 0, TailCount(i), TailCount(i), FreshBits(TailCount(i)))
  }

  function FreshLarge(i: nat, page: nat, header: Obj, colorMap: Obj): Slab
    requires i < CLASSES
  {
    Slab(Kept(header), Kept(colorMap), page, 0, FullCount(i), FullCount(i), FreshBits(FullCount(i)))
  }

  /** The walk over the ring: the first slab with a free slot, or cache_pool again. */
  function FindSlab(ring: seq<Slab>, k: nat): (r: nat)
    requires k <= |ring| && ring != []
    ensures r < |ring|
    decreases |ring| - k
  {
    if k == |ring| then 0 else if ring[k].free != 0 then k else FindSlab(ring, k + 1)
  }

  /** kmalloc for a pool whose slabs are self-contained. */
  function SmallMalloc(h: Heap, i: nat): (r: (Heap, Option<Obj>))
    requires Shaped(h.pools) && i < LARGE
    ensures Shaped(r.0.pools)
  {
    assert In(h.pools, i, 0);
    if h.pools[i].free != 0 then SlabMalloc(h, i, FindSlab(h.pools[i].ring, 0))
    else
      match GetPage(h.mem)
      case (_, None) => (h, None)
      case (m, Some(p)) => Grow(Heap(h.pools, m), i, FreshTail(i, p))
  }

  /** Links a new slab into its pool and takes the first object from it. */
  function Grow(h: Heap, i: nat, s: Slab): (r: (Heap, Option<Obj>))
    requires Shaped(h.pools) && i < CLASSES && MapFits(s)
    ensures Shaped(r.0.pools)
  {
    ShapedAfter(h.pools, i, 0, s, 0);
    SlabMalloc(h.(pools := Link(h.pools, i, s)), i, |h.pools[i].ring|)
  }

  // ---------------------------------------------------------------- release

  /** Position of the slab whose data page is `page`, in the order kfree searches. */
  function Locate(ps: Pools, page: int, i: nat, k: nat): (r: Option<(nat, nat)>)
    ensures r.Some? ==> In(ps, r.value.0, r.value.1) && At(ps, r.value.0, r.value.1).page == page
    decreases |ps| - i, if i < |ps| then |ps[i].ring| - k else 0
  {
    if i >= |ps| then None
    else if k >= |ps[i].ring| then Locate(ps, page, i + 1, 0)
    else if ps[i].ring[k].page == page then Some((i, k))
    else Locate(ps, page, i, k + 1)
  }

  /** An empty slab other than cache_pool goes back when the pool keeps half a slab without it. */
  predicate ShouldShrink(ps: Pools, i: nat, k: nat)
    requires In(ps, i, k)
  {
    At(ps, i, k).using == 0 && ps[i].free >= At(ps, i, k).count * 3 / 2 && k != 0
  }

  function ClearSlot(ps: Pools, i: nat, k: nat, j: nat): (r: Pools)
    requires Shaped(ps) && In(ps, i, k) && j < |At(ps, i, k).bits|
    ensures Shaped(r) && In(r, i, k)
  {
    assert MapFits(At(ps, i, k));
    ShapedAfter(ps, i, k, Released(At(ps, i, k), j), -1);
    Put(ps, i, k, Released(At(ps, i, k), j), -1)
  }

  function Remove(ps: Pools, i: nat, k: nat): (r: Pools)
    requires Shaped(ps) && In(ps, i, k) && k != 0
    ensures Shaped(r)
  {
    assert MapFits(At(ps, i, k));
    ShapedAfter(ps, i, k, At(ps, i, k), 0);
    Unlink(ps, i, k)
  }

  /** kfree of slot j of a self-contained slab. */
  function SmallFreeAt(h: Heap, i: nat, k: nat, j: nat): (r: Heap)
    requires Shaped(h.pools) && In(h.pools, i, k) && j < |At(h.pools, i, k).bits|
    ensures Shaped(r.pools)
  {
    var ps := ClearSlot(h.pools, i, k, j);
    if ShouldShrink(ps, i, k)
    then Heap(Remove(ps, i, k), PutPage(h.mem, At(h.pools, i, k).page))
    else Heap(ps, h.mem)
  }

  /** kfree of an object that a slab of a larger class was using for its header or bitmap. */
  function SmallFree(h: Heap, o: Obj): (r: Heap)
    requires Shaped(h.pools)
    ensures Shaped(r.pools)
  {
    match Locate(h.pools, o.page, 0, 0)
    case None => h
    case Some((i, k)) =>
      if o.slot < |At(h.pools, i, k).bits| then SmallFreeAt(h, i, k, o.slot) else h
  }

  /** get_new_Slab: header object, data page, bitmap object, undone in reverse when one is missing. */
  function GetNewSlab(h: Heap, i: nat): (r: (Heap, Option<Slab>))
    requires Shaped(h.pools) && LARGE <= i < CLASSES
    ensures Shaped(r.0.pools)
    ensures r.1.Some? ==> MapFits(r.1.value)
  {
    MapClassIsSmall(i);
    match SmallMalloc(h, HEADER_CLASS)
    case (h1, None) => (h1, None)
    case (h1, Some(header)) =>
      match GetPage(h1.mem)
      case (_, None) => (SmallFree(h1, header), None)
      case (m, Some(page)) =>
        match SmallMalloc(h1.(mem := m), MapClass(i))
        case (h3, None) => (SmallFree(h3.(mem := DropPage(h3.mem, page)), header), None)
        case (h3, Some(colorMap)) => (h3, Some(FreshLarge(i, page, header, colorMap)))
  }

  function FreePlace(h: Heap, p: Place): (r: Heap)
    requires Shaped(h.pools)
    ensures Shaped(r.pools)
  {
    if p.Kept? then SmallFree(h, p.obj) else h
  }

  /** __do_Slab_destory: off the ring, then bitmap, data page and header. */
  function Destroy(h: Heap, i: nat, k: nat): (r: Heap)
    requires Shaped(h.pools) && In(h.pools, i, k) && k != 0
    ensures Shaped(r.pools)
  {
    var s := At(h.pools, i, k);
    var h1 := FreePlace(h.(pools := Remove(h.pools, i, k)), s.colorMap);
    FreePlace(h1.(mem := PutPage(h1.mem, s.page)), s.header)
  }

  /** The smallest pools that hold header and bitmap are self-contained, as a bitmap has at most 2048 slots. */
  lemma MapClassIsSmall(i: nat)
    requires LARGE <= i < CLASSES
    ensures MapClass(i) < LARGE && Size(MapClass(i)) >= MapBytes(FullCount(i))
    ensures forall c :: 0 <= c < MapClass(i) ==> Size(c) < MapBytes(FullCount(i))
    ensures Size(HEADER_CLASS) >= HEADER && ClassOf(HEADER, 0) == HEADER_CLASS
  {
    assert ClassOf(HEADER, 0) == ClassOf(HEADER, 1) == ClassOf(HEADER, 2) == 2;
    var n := MapBytes(FullCount(i));
    assert n <= 256;
    ClassOfFits(n, 0);
    assert Size(3) >= n;
    assert MapClass(i) <= 3;
  }

  lemma {:induction false} ClassOfFits(size: nat, i: nat)
    requires i <= CLASSES
    ensures ClassOf(size, i) < CLASSES ==> Size(ClassOf(size, i)) >= size
    ensures forall c :: i <= c < ClassOf(size, i) ==> Size(c) < size
    decreases CLASSES - i
  {
    if i < CLASSES && Size(i) < size {
      ClassOfFits(size, i + 1);
    }
  }

  // ---------------------------------------------------------------- kmalloc and kfree

  /** kmalloc_create: a new slab for pool i. */
  function CreateSlab(h: Heap, i: nat): (r: (Heap, Option<Slab>))
    requires Shaped(h.pools) && i < CLASSES
    ensures Shaped(r.0.pools)
    ensures r.1.Some? ==> MapFits(r.1.value)
  {
    if i < LARGE then
      match GetPage(h.mem)
      case (_, None) => (h, None)
      case (m, Some(p)) => (Heap(h.pools, m), Some(FreshTail(i, p)))
    else if i == NO_GROWTH then (h, None)
    else GetNewSlab(h, i)
  }

  /** kmalloc for pool i. */
  function MallocClass(h: Heap, i: nat): (r: (Heap, Option<Obj>))
    requires Shaped(h.pools) && i < CLASSES
    ensures Shaped(r.0.pools)
  {
    assert In(h.pools, i, 0);
    if i < LARGE then SmallMalloc(h, i)
    else if h.pools[i].free != 0 then SlabMalloc(h, i, FindSlab(h.pools[i].ring, 0))
    else if i == NO_GROWTH then (h, None)
    else
      match GetNewSlab(h, i)
      case (h1, None) => (h1, None)
      case (h1, Some(s)) => Grow(h1, i, s)
  }

  /** kmalloc */
  function Kmalloc(h: Heap, size: nat): (r: (Heap, Option<Obj>))
    requires Shaped(h.pools)
    ensures Shaped(r.0.pools)
  {
    if size > 1048576 then (h, None)
    else
      LargestFits(size);
      MallocClass(h, ClassOf(size, 0))
  }

  lemma LargestFits(size: nat)
    requires size <= 1048576
    ensures ClassOf(size, 0) < CLASSES && Size(ClassOf(size, 0)) >= size
  {
    ClassOfFits(size, 0);
    assert Size(15) == 1048576;
  }

  /** kfree of slot j of slab k of pool i. */
  function FreeAt(h: Heap, i: nat, k: nat, j: nat): (r: Heap)
    requires Shaped(h.pools) && In(h.pools, i, k) && j < |At(h.pools, i, k).bits|
    ensures Shaped(r.pools)
  {
    if i < LARGE then SmallFreeAt(h, i, k, j)
    else
      var ps := ClearSlot(h.pools, i, k, j);
      if ShouldShrink(ps, i, k) then Destroy(Heap(ps, h.mem), i, k) else Heap(ps, h.mem)
  }

  // ---------------------------------------------------------------- addresses

  function PageAddr(page: nat): int {
    PAGE_OFFSET + page * PAGE
  }

  /** The virtual address of an object. */
  function Addr(o: Obj): int
    requires o.cls < CLASSES
  {
    PageAddr(o.page) + o.slot * Size(o.cls)
  }

  /** Page number that masking an address to 2 MB leads to. */
  function PageOf(address: int): int {
    (address - PAGE_OFFSET) / PAGE
  }

  /** The slot that kfree computes for an address. */
  function SlotOf(address: int, i: nat): nat
    requires i < CLASSES
  {
    (address - PAGE_OFFSET) % PAGE / Size(i)
  }

  /** kfree: false when no slab owns the page of the address. */
  function Kfree(h: Heap, address: int): (r: (Heap, bool))
    requires Shaped(h.pools)
    requires var at := Locate(h.pools, PageOf(address), 0, 0);
      at.Some? ==> SlotOf(address, at.value.0) < |At(h.pools, at.value.0, at.value.1).bits|
    ensures Shaped(r.0.pools)
  {
    match Locate(h.pools, PageOf(address), 0, 0)
    case None => (h, false)
    case Some((i, k)) => (FreeAt(h, i, k, SlotOf(address, i)), true)
  }
}
