/** The slab heap as the kernel runs it: slab and pool records changed in place, with kmalloc and
    kfree calling themselves through kmalloc_create, get_new_Slab and __do_Slab_destory. Every
    method is tied to the value-level operation of module Heap, kept in the ghost field `st`. */
module KernelHeap {
  import opened Options
  import opened Words
  import opened Pages
  import opened Heap
  import H = Heap
  import opened HeapInvariant
  import opened HeapOperations
  import opened HeapCalls
  import opened HeapTheorems
  import opened HeapSafety
  import opened HeapStart
  import PM = PhysicalMemory
  import R = HeapReferences

  /** `struct Slab`; `address` is where the record itself lies. */
  class SlabRecord {
    const address: int
    var page: nat
    var vAddress: int
    var usingCount: int
    var freeCount: int
    var colorLength: nat
    var colorCount: nat
    var colorMapAddress: int
    var colorMap: array<Word>

    constructor (address: int, page: nat, count: nat, mapAddress: int)
      ensures this.address == address && this.page == page && vAddress == PageAddr(page)
      ensures usingCount == 0 && freeCount == count && colorCount == count
      ensures colorLength == MapBytes(count) && colorMapAddress == mapAddress
      ensures fresh(colorMap) && Flat(colorMap[..]) == FreshBits(count)
    {
      this.address, this.page, vAddress := address, page, PageAddr(page);
      usingCount, freeCount, colorCount := 0, count, count;
      colorLength := (count + 63) / 64 * 8;
      colorMapAddress := mapAddress;
      colorMap := new Word[(count + 63) / 64](_ => ONES);
      new;
      var i := 0;
      while i < colorCount
        invariant 0 <= i <= count == colorCount && colorMap.Length == (count + 63) / 64
        invariant fresh(colorMap)
        invariant this.address == address && this.page == page && vAddress == PageAddr(page)
        invariant usingCount == 0 && freeCount == count && colorLength == MapBytes(count)
        invariant colorMapAddress == mapAddress
        invariant Flat(colorMap[..]) == seq(64 * colorMap.Length, j => j >= i)
      {
        ghost var words := colorMap[..];
        FlatUpdates(words, i);
        colorMap[i / 64] := Xor(colorMap[i / 64], One(i % 64));
        assert colorMap[..] == words[i / 64 := Xor(words[i / 64], One(i % 64))];
        i := i + 1;
      }
    }

    /** This record is slab t, kept where t says. */
    ghost predicate Is(i: nat, t: Slab)
      requires i < CLASSES
      reads this, colorMap
      ensures Is(i, t) ==> page == t.page && vAddress == PageAddr(t.page) && colorCount == t.count
      ensures Is(i, t) ==> usingCount == t.using && freeCount == t.free
    {
      && page == t.page && vAddress == PageAddr(t.page)
      && usingCount == t.using && freeCount == t.free && colorCount == t.count
      && colorLength == MapBytes(t.count)
      && Flat(colorMap[..]) == t.bits
      && address == PlaceOf(i, t, true) && colorMapAddress == PlaceOf(i, t, false)
    }

    /** The search loop of __do_slab_malloc: the lowest clear slot, skipping whole words that are
        full; at least colorCount when every slot is taken. */
    method FindClear(ghost i: nat, ghost t: Slab) returns (j: nat)
      requires i < CLASSES && Is(i, t) && BitsOk(t)
      ensures t.count <= |t.bits|
      ensures var r := FirstClear(t.bits, 0, t.count);
        if r < t.count then j == r else j >= t.count
    {
      hide FirstClear, UsedIn, MapBytes, PlaceOf, Flat, Is, BitsOk;
      SlotsAre(i, t);
      j := 0;
      while j < colorCount
        invariant 0 <= j
        invariant forall l :: 0 <= l < j && l < t.count ==> t.bits[l]
        invariant j % 64 == 0 || j >= t.count || colorMap[j / 64] != ONES
        decreases t.count - j
      {
        BitTest(colorMap[..], j);
        if colorMap[j / 64] == ONES {
          j := j + 64;
          continue;
        }
        if IsZero(And(colorMap[j / 64], One(j % 64))) {
          FirstClearIs(t.bits, 0, j, t.count);
          return;
        }
        j := j + 1;
      }
      FirstClearIs(t.bits, 0, t.count, t.count);
    }

    lemma SlotsAre(i: nat, t: Slab)
      requires i < CLASSES && Is(i, t) && BitsOk(t)
      ensures colorCount == t.count <= |t.bits| == 64 * colorMap.Length && Flat(colorMap[..]) == t.bits
    {
    }

    /** Takes slot j: one bit and two counters. */
    method Occupy(ghost i: nat, ghost t: Slab, j: nat)
      requires i < CLASSES && Is(i, t) && j < |t.bits|
      modifies this`usingCount, this`freeCount, colorMap
      ensures Is(i, Occupied(t, j))
    {
      ghost var words := colorMap[..];
      FlatUpdates(words, j);
      colorMap[j / 64] := Or(colorMap[j / 64], One(j % 64));
      assert colorMap[..] == words[j / 64 := Or(words[j / 64], One(j % 64))];
      usingCount := usingCount + 1;
      freeCount := freeCount - 1;
    }

    /** Flips the bit of slot j back and moves the two counters the other way. */
    method Release(ghost i: nat, ghost t: Slab, j: nat)
      requires i < CLASSES && Is(i, t) && j < |t.bits|
      modifies this`usingCount, this`freeCount, colorMap
      ensures Is(i, Released(t, j))
    {
      ghost var words := colorMap[..];
      FlatUpdates(words, j);
      colorMap[j / 64] := Xor(colorMap[j / 64], One(j % 64));
      assert colorMap[..] == words[j / 64 := Xor(words[j / 64], One(j % 64))];
      freeCount := freeCount + 1;
      usingCount := usingCount - 1;
    }
  }

  /** `struct Slab_cache`; the ring of records starts at cache_pool. */
  class PoolRecord {
    const size: nat
    var totalUsing: int
    var totalFree: int
    var ring: seq<SlabRecord>
    /** The slab records of the ring and their bitmaps. */
    ghost var Foot: set<object>

    constructor (size: nat)
      ensures this.size == size && totalUsing == 0 && totalFree == 0 && ring == [] && Foot == {}
    {
      this.size, totalUsing, totalFree, ring, Foot := size, 0, 0, [], {};
    }

    /** This record, with the slab records on its ring, is pool p of class i. */
    ghost predicate Is(i: nat, p: Pool)
      requires i < CLASSES
      reads this, Foot
      ensures Is(i, p) ==> size == Size(i) && totalUsing == p.using && totalFree == p.free && |ring| == |p.ring|
    {
      && this !in Foot && size == Size(i)
      && totalUsing == p.using && totalFree == p.free && |ring| == |p.ring|
      && (forall k :: 0 <= k < |ring| ==>
            ring[k] in Foot && ring[k].colorMap in Foot && ring[k].Is(i, p.ring[k]))
      && (forall k, l :: 0 <= k < |ring| && 0 <= l < |ring| && k != l ==>
            ring[k] != ring[l] && ring[k].colorMap != ring[l].colorMap)
    }

    /** The data page of the first slab. */
    method PlaceFirst(ghost i: nat, ghost origin: nat, page: nat)
      requires i < CLASSES && Is(i, FirstPool(origin, i, 0))
      modifies Foot
      ensures Is(i, FirstPool(origin, i, page))
    {
      ring[0].page := page;
      ring[0].vAddress := PageAddr(page);
    }

    /** __do_slab_malloc on slab k of the ring. */
    method SlabMalloc(ghost i: nat, ghost p: Pool, k: nat) returns (address: Option<int>)
      requires i < CLASSES && Is(i, p) && k < |p.ring| && BitsOk(p.ring[k])
      modifies this`totalUsing, this`totalFree, Foot
      ensures Foot == old(Foot) && p.ring[k].count <= |p.ring[k].bits|
      ensures var s := p.ring[k];
        var j := FirstClear(s.bits, 0, s.count);
        if j == s.count then address == None && Is(i, p)
        else
          && address == Some(PageAddr(s.page) + j * Size(i))
          && Is(i, Pool(p.using + 1, p.free - 1, p.ring[k := Occupied(s, j)]))
    {
      hide FirstClear, UsedIn, BitsOk;
      var slab := ring[k];
      ghost var s := p.ring[k];
      var j := slab.FindClear(i, s);
      hide SlabRecord.Is;
      if j >= slab.colorCount {
        return None;
      }
      slab.Occupy(i, s, j);
      totalUsing := totalUsing + 1;
      totalFree := totalFree - 1;
      address := Some(slab.vAddress + size * j);
    }

    /** The part of kfree that flips the bit and moves the four counters. */
    method Release(ghost i: nat, ghost p: Pool, k: nat, j: nat)
      requires i < CLASSES && Is(i, p) && k < |p.ring| && j < |p.ring[k].bits|
      modifies this`totalUsing, this`totalFree, Foot
      ensures Is(i, Pool(p.using - 1, p.free + 1, p.ring[k := Released(p.ring[k], j)]))
      ensures Foot == old(Foot)
    {
      ring[k].Release(i, p.ring[k], j);
      totalFree := totalFree + 1;
      totalUsing := totalUsing - 1;
    }

    /** Puts a new slab in front of cache_pool, the end of the ring. */
    method LinkSlab(slab: SlabRecord, ghost i: nat, ghost p: Pool, ghost s: Slab)
      requires i < CLASSES && Is(i, p) && slab.Is(i, s)
      requires slab !in Foot && slab.colorMap !in Foot && this as object != slab.colorMap
      modifies this
      ensures Is(i, Pool(p.using, p.free + s.count, p.ring + [s]))
      ensures Foot == old(Foot) + {slab, slab.colorMap}
    {
      totalFree := totalFree + slab.colorCount;
      ring := ring + [slab];
      Foot := Foot + {slab, slab.colorMap};
    }

    /** list_del: the record leaves the storage of the pool. */
    method UnlinkSlab(k: nat, ghost i: nat, ghost p: Pool)
      requires i < CLASSES && Is(i, p) && k < |p.ring|
      modifies this`ring, this`Foot
      ensures Is(i, p.(ring := p.ring[..k] + p.ring[k + 1..]))
      ensures Foot == old(Foot) - {old(ring[k]), old(ring[k].colorMap)}
    {
      Foot := Foot - {ring[k], ring[k].colorMap};
      ring := ring[..k] + ring[k + 1..];
    }

    /** The walk of kmalloc: the first slab with a free slot, or cache_pool again. */
    method FindRoom(ghost i: nat, ghost p: Pool) returns (k: nat)
      requires i < CLASSES && Is(i, p) && ring != []
      ensures k == FindSlab(p.ring, 0)
    {
      k := 0;
      while k < |ring|
        invariant 0 <= k <= |ring|
        invariant FindSlab(p.ring, 0) == FindSlab(p.ring, k)
      {
        if ring[k].freeCount != 0 {
          return;
        }
        k := k + 1;
      }
      k := 0;
    }
  }

  class KernelHeap {
    const pools: seq<PoolRecord>
    const mem: PM.PageAllocator
    ghost var st: Heap
    /** The pool and slab records and the slab bitmaps. */
    ghost var Own: set<object>

    /** The records in memory are exactly the pools ps, and no two pools share storage. */
    ghost predicate Records(ps: Pools)
      reads this`Own, Own
    {
      && this !in Own && mem !in Own && mem.bitsMap !in Own && mem.zones !in Own && mem.pages !in Own
      && |pools| == CLASSES == |ps| && RecordsAre(pools, ps, Own)
    }

    static ghost predicate RecordsAre(pools: seq<PoolRecord>, ps: Pools, own: set<object>)
      reads own
    {
      && |pools| == |ps| <= CLASSES
      && (forall i :: 0 <= i < |ps| ==>
            pools[i] in own && pools[i].Foot <= own && pools[i].Is(i, ps[i]))
      && (forall i, j :: 0 <= i < |ps| && 0 <= j < |ps| && i != j ==>
            pools[i] != pools[j] && pools[i].Foot !! pools[j].Foot && pools[i] !in pools[j].Foot)
      && (forall i :: 0 <= i < |ps| ==> pools[i] !in pools[i].Foot)
    }

    ghost predicate Rep()
      reads this`Own, this`st, Own, mem, mem.bitsMap, mem.zones, mem.pages
    {
      && Records(st.pools) && Shaped(st.pools)
      && mem.Valid() && mem.State() == st.mem
    }

    ghost predicate Valid()
      reads this`Own, this`st, Own, mem, mem.bitsMap, mem.zones, mem.pages
    {
      Rep() && Inv(st)
    }

    /** kmalloc_slab_init: headers and bitmaps of sixteen pools behind the boot data, the pages they
        reach into, then sixteen data pages. The heap that comes out is valid exactly when neither end
        is a page boundary. */
    constructor (mem: PM.PageAllocator)
      requires mem.Valid() && Conserved(mem.State()) && mem.endOfStruct >= PAGE_OFFSET
      requires RoomFor(mem.State(), LayoutEnd(mem.endOfStruct, CLASSES))
      modifies mem, mem.bitsMap, mem.zones, mem.pages
      ensures Rep() && this.mem == mem && fresh(Own)
      ensures mem.endOfStruct == LayoutEnd(old(mem.endOfStruct), CLASSES) >= PAGE_OFFSET
      ensures st == Heap(FirstPools(old(mem.endOfStruct), DataPage(mem.endOfStruct)), SetUp(old(mem.State()), mem.endOfStruct))
      ensures Valid() <==> old(mem.endOfStruct) % PAGE != 0 && mem.endOfStruct % PAGE != 0
      ensures forall o :: !Live(st.pools, o)
    {
      var origin: nat := mem.endOfStruct;
      var records, end, foot := BuildPools(origin);
      this.mem := mem;
      pools := records;
      Own := foot;
      st := Heap([], mem.State());
      new;
      hide *;
      LayoutAbove(origin, CLASSES);
      Populate(origin, end);
    }

    /** The second and third step of kmalloc_slab_init: the pages, and their hand-out to the pools. */
    method Populate(origin: nat, end: nat)
      requires mem.Valid() && Conserved(mem.State()) && mem.endOfStruct == origin && RoomFor(mem.State(), end)
      requires end == LayoutEnd(origin, CLASSES) && |pools| == CLASSES && RecordsAre(pools, Unplaced(origin, CLASSES), Own)
      requires this !in Own && mem !in Own && mem.bitsMap !in Own && mem.zones !in Own && mem.pages !in Own
      modifies this`st, Own, mem, mem.bitsMap, mem.zones, mem.pages
      ensures Rep() && Own == old(Own) && mem.endOfStruct == end
      ensures st == Heap(FirstPools(origin, DataPage(end)), SetUp(old(mem.State()), end))
      ensures Inv(st) <==> origin % PAGE != 0 && end % PAGE != 0
      ensures forall o :: !Live(st.pools, o)
    {
      hide Table, Conserved, RoomFor, SetUp, FirstPools, LayoutEnd, Inv, Live, Taken, RecordsAre;
      SetUpConserves(mem.State(), end);
      TakeHeapPages(mem, end);
      PlaceData(origin, DataPage(end));
      FirstHeapInv(mem.State(), origin, DataPage(end));
      FirstShaped(origin, DataPage(end));
      st := Heap(FirstPools(origin, DataPage(end)), mem.State());
    }

    /** The pages the new headers and bitmaps reach into, and the sixteen data pages. */
    static method TakeHeapPages(mem: PM.PageAllocator, end: nat)
      requires mem.Valid() && Conserved(mem.State()) && RoomFor(mem.State(), end)
      modifies mem, mem.bitsMap, mem.zones, mem.pages
      ensures mem.Valid() && mem.endOfStruct == end && mem.State() == SetUp(old(mem.State()), end)
    {
      hide Table, Zoned, Conserved, ReserveRun, Roomy, BackedRun, ZonedRun, Reserved, RoomFor;
      SetUpRuns(mem.State(), end);
      var origin := mem.endOfStruct;
      mem.endOfStruct := end;
      mem.ReserveRange((origin - PAGE_OFFSET + PAGE - 1) / PAGE, (end - PAGE_OFFSET) / PAGE + 1);
      mem.ReserveRange((end - PAGE_OFFSET + PAGE - 1) / PAGE, (end - PAGE_OFFSET + PAGE - 1) / PAGE + 16);
    }

    /** Hands the first slab of pool i its data page first + i. */
    method PlaceData(origin: nat, first: nat)
      requires |pools| == CLASSES && this !in Own
      requires RecordsAre(pools, Unplaced(origin, CLASSES), Own)
      modifies Own
      ensures RecordsAre(pools, FirstPools(origin, first), Own) && Own == old(Own)
    {
      hide FirstSlab, PoolRecord.Is;
      var i := 0;
      PartlyNone(origin, first);
      while i < 16
        invariant 0 <= i <= 16 && RecordsAre(pools, Partly(origin, first, i), Own)
        invariant Own == old(Own)
      {
        PartlyStep(origin, first, i);
        pools[i].PlaceFirst(i, origin, first + i);
        i := i + 1;
      }
      PartlyAll(origin, first);
    }

    /** The first step of kmalloc_slab_init, over all sixteen pools. */
    static method BuildPools(origin: nat) returns (records: seq<PoolRecord>, end: nat, ghost foot: set<object>)
      ensures |records| == CLASSES && end == LayoutEnd(origin, CLASSES)
      ensures fresh(foot)
      ensures RecordsAre(records, Unplaced(origin, CLASSES), foot)
    {
      hide FirstPool, PoolRecord.Is, RecordsAre, Unplaced, LayoutEnd;
      LayoutStart(origin);
      records, end, foot := [], origin, {};
      RecordsNone(origin);
      var i := 0;
      while i < 16
        invariant 0 <= i <= 16 && |records| == i && end == LayoutEnd(origin, i) && fresh(foot)
        invariant RecordsAre(records, Unplaced(origin, i), foot)
      {
        var address := end;
        end := end + HEADER + 80;
        var bitmapAddress := end;
        end := (end + (PAGE / Size(i) + 63) / 64 * 8 + 80) / 8 * 8;
        var pool := FirstRecord(origin, i, address, bitmapAddress);
        UnplacedStep(origin, i);
        LayoutNext(origin, i);
        RecordsAppend(records, Unplaced(origin, i), foot, pool, FirstPool(origin, i, 0));
        records := records + [pool];
        foot := foot + {pool} + pool.Foot;
        i := i + 1;
      }
    }

    static lemma RecordsNone(origin: nat)
      ensures RecordsAre([], Unplaced(origin, 0), {})
    {
    }

    static lemma RecordsAppend(records: seq<PoolRecord>, ps: Pools, foot: set<object>, pool: PoolRecord, p: Pool)
      requires RecordsAre(records, ps, foot) && |ps| < CLASSES && pool.Is(|ps|, p)
      requires pool !in foot && pool.Foot !! foot && pool !in pool.Foot
      ensures RecordsAre(records + [pool], ps + [p], foot + {pool} + pool.Foot)
    {
      hide PoolRecord.Is;
    }

    static lemma LayoutStart(origin: nat)
      ensures LayoutEnd(origin, 0) == origin
    {
    }

    static lemma LayoutNext(origin: nat, i: nat)
      requires i < CLASSES
      ensures LayoutEnd(origin, i + 1)
           == (LayoutEnd(origin, i) + HEADER + 80 + (PAGE / Size(i) + 63) / 64 * 8 + 80) / 8 * 8
    {
    }

    /** Pool i with its one static slab. */
    static method FirstRecord(ghost origin: nat, i: nat, address: nat, mapAddress: nat) returns (pool: PoolRecord)
      requires i < CLASSES && address == LayoutEnd(origin, i) && mapAddress == address + HEADER + 80
      ensures fresh(pool) && fresh(pool.Foot) && pool !in pool.Foot
      ensures pool.Is(i, FirstPool(origin, i, 0))
    {
      hide FreshBits;
      var slab := new SlabRecord(address, 0, PAGE / Size(i), mapAddress);
      pool := new PoolRecord(Size(i));
      pool.LinkSlab(slab, i, Pool(0, 0, []), FirstSlab(origin, i, 0));
    }

    // -------------------------------------------------------------- pages

    /** alloc_pages(ZONE_NORMAL, 1, 0) and, if it succeeds, page_init(page, PG_Kernel). */
    method TakePage() returns (page: Option<nat>)
      requires Valid()
      modifies this`st, mem.bitsMap, mem.zones, mem.pages
      ensures Rep()
      ensures (st.mem, page) == GetPage(old(st.mem)) && st.pools == old(st.pools)
    {
      hide Inv, Table, Conserved, AllocPages, Pages.PageInit;
      MemoryOf(st);
      ghost var z := AllocOneOk(st.mem);
      page := mem.AllocPages(ZoneNormal, 1);
      if page.Some? {
        mem.PageInit(page.value, {Kernel});
      }
      st := st.(mem := mem.State());
    }

    /** free_pages(page, 1) of a page in use. */
    method FreePage(page: nat)
      requires Rep() && Zoned(st.mem, page)
      modifies this`st, mem.bitsMap, mem.zones, mem.pages
      ensures Rep()
      ensures st == old(st).(mem := DropPage(old(st.mem), page))
    {
      OneIsRun(st.mem, page);
      mem.FreePages(Some(page), 1);
      st := st.(mem := mem.State());
    }

    /** page_clean(page); free_pages(page, 1) */
    method CleanAndFreePage(page: nat)
      requires Rep() && Zoned(st.mem, page)
      modifies this`st, mem.bitsMap, mem.zones, mem.pages
      ensures Rep()
      ensures st == old(st).(mem := PutPage(old(st.mem), page))
    {
      mem.PageClean(page);
      st := st.(mem := mem.State());
      FreePage(page);
    }

    // -------------------------------------------------------------- kmalloc

    /** __do_slab_malloc for slab k of pool i. */
    method SlabMalloc(i: nat, k: nat) returns (address: Option<int>)
      requires Rep() && In(st.pools, i, k) && BitsOk(At(st.pools, i, k))
      modifies this`st, pools[i], pools[i].Foot
      ensures Rep() && Own == old(Own)
      ensures st == H.SlabMalloc(old(st), i, k).0
      ensures address == AddressOf(H.SlabMalloc(old(st), i, k).1)
    {
      hide BitsOk, Shaped, PoolRecord.Is, SlabRecord.Is, PM.PageAllocator.Valid, PM.PageAllocator.State;
      SlabMallocPool(st, i, k);
      address := pools[i].SlabMalloc(i, st.pools[i], k);
      st := H.SlabMalloc(st, i, k).0;
    }

    /** kmalloc_create */
    method KmallocCreate(i: nat) returns (slab: SlabRecord?)
      requires Valid() && i < CLASSES
      modifies this`st, this`Own, Own, mem.bitsMap, mem.zones, mem.pages
      ensures Rep() && fresh(Own - old(Own))
      ensures st == CreateSlab(old(st), i).0
      ensures slab == null <==> CreateSlab(old(st), i).1.None?
      ensures slab != null ==>
        && fresh(slab) && fresh(slab.colorMap) && slab !in Own && slab.colorMap !in Own
        && slab.Is(i, CreateSlab(old(st), i).1.value)
      decreases if i >= LARGE then 1 else 0, 1
    {
      hide Inv, Shaped, Table, GetPage, Records;
      var size := Size(i);
      MemoryOf(st);
      if i < LARGE {
        GetPageOk(st.mem);
        var page := TakePage();
        if page.None? {
          return null;
        }
        var tail := HEADER + PAGE / size / 8;
        var address := PageAddr(page.value) + PAGE - tail;
        slab := new SlabRecord(address, page.value, (PAGE - PAGE / size / 8 - HEADER) / size, address + HEADER);
      } else if i == NO_GROWTH {
        return null;
      } else {
        slab := GetNewSlab(i);
      }
    }

    /** get_new_Slab: header, page and bitmap, each given back when a later one is missing. */
    method GetNewSlab(i: nat) returns (slab: SlabRecord?)
      requires Valid() && LARGE <= i < CLASSES
      modifies this`st, this`Own, Own, mem.bitsMap, mem.zones, mem.pages
      ensures Rep() && fresh(Own - old(Own))
      ensures st == H.GetNewSlab(old(st), i).0
      ensures slab == null <==> H.GetNewSlab(old(st), i).1.None?
      ensures slab != null ==>
        && fresh(slab) && fresh(slab.colorMap) && slab !in Own && slab.colorMap !in Own
        && slab.Is(i, H.GetNewSlab(old(st), i).1.value)
      decreases 1, 0
    {
      hide Inv, Shaped, Table, Records, Conserved, SmallMalloc, SmallFree, HalfWay, GetPage, DropPage;
      hide H.GetNewSlab, H.Kmalloc, H.Kfree, MayFree, LocatedLarge, User, Added, Live, IsMeta;
      ghost var h := st;
      HeaderCall(h, i);
      var header := Kmalloc(HEADER);
      if header.None? {
        return null;
      }
      ghost var h1, headerObj := SmallMalloc(h, HEADER_CLASS).0, SmallMalloc(h, HEADER_CLASS).1.value;
      PageCall(h, i);
      var page := TakePage();
      if page.None? {
        var _ := this.Kfree(header.value);
        return null;
      }
      var bitmap := TakeBitmap(i, header.value, page.value, h, h1, headerObj);
      if bitmap.None? {
        return null;
      }
      slab := new SlabRecord(header.value, page.value, PAGE / Size(i), bitmap.value);
    }

    /** The last step of get_new_Slab: the bitmap, or page and header given back. */
    method TakeBitmap(i: nat, header: int, page: nat, ghost h: Heap, ghost h1: Heap, ghost headerObj: Obj)
      returns (bitmap: Option<int>)
      requires Valid() && st == h1.(mem := st.mem) && HalfWay(h, h1, st.mem, i, headerObj, page)
      requires SmallMalloc(h, HEADER_CLASS) == (h1, Some(headerObj)) && headerObj.cls < CLASSES && header == Addr(headerObj)
      modifies this`st, this`Own, Own, mem.bitsMap, mem.zones, mem.pages
      ensures Rep() && fresh(Own - old(Own)) && LARGE <= i < CLASSES && Shaped(h.pools)
      ensures st == H.GetNewSlab(h, i).0
      ensures bitmap.None? <==> H.GetNewSlab(h, i).1.None?
      ensures bitmap.Some? ==>
        var s := H.GetNewSlab(h, i).1.value;
        && s.colorMap.Kept? && s.colorMap.obj.cls < CLASSES && bitmap.value == Addr(s.colorMap.obj)
        && s == FreshLarge(i, page, headerObj, s.colorMap.obj)
      decreases 0, 3
    {
      hide Inv, Shaped, Table, Records, Conserved, SmallMalloc, SmallFree, GetPage, DropPage;
      hide H.GetNewSlab, H.Kmalloc, H.Kfree, MayFree, LocatedLarge, User, Added;
      MapCall(h, h1, st.mem, i, headerObj, page);
      bitmap := Kmalloc(MapBytes(FullCount(i)));
      if bitmap.None? {
        FreePage(page);
        var _ := this.Kfree(header);
      }
    }

    /** kmalloc */
    method Kmalloc(size: nat) returns (address: Option<int>)
      requires Valid()
      modifies this`st, this`Own, Own, mem.bitsMap, mem.zones, mem.pages
      ensures Valid() && fresh(Own - old(Own))
      ensures st == H.Kmalloc(old(st), size).0 && address == AddressOf(H.Kmalloc(old(st), size).1)
      decreases if ClassOf(size, 0) >= LARGE then 1 else 0, 2, 1
    {
      hide Inv, Shaped, Table, PoolRecord.Is, BitsOk, H.SlabMalloc, MallocClass;
      ghost var h := st;
      KmallocOk(h, size);
      if size > 1048576 {
        return None;
      }
      LargestFits(size);
      var i := 0;
      while i < 16 && pools[i].size < size
        invariant 0 <= i <= ClassOf(size, 0) == ClassOf(size, i)
      {
        i := i + 1;
      }
      address := MallocFrom(i);
    }

    /** list_add_to_before(&cache_pool->list, &slab->list), with the total that goes with it. */
    method Attach(i: nat, slab: SlabRecord, ghost s: Slab)
      requires Rep() && i < CLASSES && slab.Is(i, s) && MapFits(s)
      requires slab !in Own && slab.colorMap !in Own && allocated(slab)
      requires slab as object != this && slab.colorMap as object != this && slab.colorMap != mem.bitsMap
      modifies this`st, this`Own, pools[i]
      ensures Rep() && Own == old(Own) + {slab, slab.colorMap}
      ensures st == old(st).(pools := Link(old(st).pools, i, s))
    {
      hide Inv, Shaped, Table, Conserved, MapFits, SlabRecord.Is, PoolRecord.Is, PM.PageAllocator.Valid, PM.PageAllocator.State;
      ShapedAfter(st.pools, i, 0, s, 0);
      pools[i].LinkSlab(slab, i, st.pools[i], s);
      Own := Own + {slab, slab.colorMap};
      ghost var ps := Link(st.pools, i, s);
      assert forall l :: 0 <= l < CLASSES && l != i ==> ps[l] == st.pools[l];
      assert RecordsAre(pools, ps, Own);
      st := st.(pools := ps);
    }

    /** The second half of kmalloc: an object of pool i, from a new slab if need be. */
    method MallocFrom(i: nat) returns (address: Option<int>)
      requires Valid() && i < CLASSES
      modifies this`st, this`Own, Own, mem.bitsMap, mem.zones, mem.pages
      ensures Rep() && fresh(Own - old(Own))
      ensures st == MallocClass(old(st), i).0 && address == AddressOf(MallocClass(old(st), i).1)
      decreases if i >= LARGE then 1 else 0, 2, 0
    {
      hide Inv, Shaped, Table, CreateSlab, SlabRecord.Is, BitsOk, H.SlabMalloc, PoolRecord.Is, MallocClass;
      ghost var h := st;
      MallocSteps(h, i);
      if pools[i].totalFree != 0 {
        var k := pools[i].FindRoom(i, st.pools[i]);
        address := SlabMalloc(i, k);
      } else {
        var slab := KmallocCreate(i);
        if slab == null {
          return None;
        }
        ghost var s := CreateSlab(h, i).1.value;
        Attach(i, slab, s);
        address := SlabMalloc(i, |pools[i].ring| - 1);
      }
    }

    // -------------------------------------------------------------- kfree

    /** kfree. A page that goes back loses its reference, in its descriptor and in its zone. */
    method Kfree(address: int) returns (ok: bool)
      requires Valid() && MayFree(st, address)
      modifies this`st, this`Own, Own, mem.bitsMap, mem.zones, mem.pages
      ensures Valid() && fresh(Own - old(Own))
      ensures (st, ok) == H.Kfree(old(st), address)
      ensures R.SameExtra(old(st), st) && R.NoNewSlab(old(st), st)
      decreases if LocatedLarge(st, address) then 1 else 0, 2
    {
      hide Inv, Shaped, Table, Records, FreeAt, IsMeta, Live, R.SameExtra, R.NoNewSlab;
      KfreeOk(st, address);
      ReferencesGoDown(st, address);
      var at := FindOwner(address);
      if at.Some? {
        var (i, k) := at.value;
        RecordAt(i, k);
        var index := (address - pools[i].ring[k].vAddress) / pools[i].size;
        FreeSlot(i, k, index);
        return true;
      }
      return false;
    }

    static lemma ReferencesGoDown(h: Heap, address: int)
      requires Inv(h) && MayFree(h, address)
      ensures var h' := H.Kfree(h, address).0;
        R.SameExtra(h, h') && R.NoNewSlab(h, h')
    {
      hide *;
      R.KfreeRefs(h, address);
    }

    /** The search of kfree over all rings for the slab of the page of an address. */
    method FindOwner(address: int) returns (at: Option<(nat, nat)>)
      requires Rep()
      ensures at == Locate(st.pools, PageOf(address), 0, 0)
    {
      hide Inv, Shaped, Table, PoolRecord.Is, SlabRecord.Is;
      var base := address - address % PAGE;
      var i := 0;
      while i < 16
        invariant 0 <= i <= 16
        invariant Locate(st.pools, PageOf(address), 0, 0) == Locate(st.pools, PageOf(address), i, 0)
      {
        var k := 0;
        while k < |pools[i].ring|
          invariant 0 <= k <= |pools[i].ring| == |st.pools[i].ring|
          invariant Locate(st.pools, PageOf(address), 0, 0) == Locate(st.pools, PageOf(address), i, k)
        {
          RecordAt(i, k);
          if pools[i].ring[k].vAddress == base {
            return Some((i, k));
          }
          k := k + 1;
        }
        i := i + 1;
      }
      return None;
    }

    lemma RecordAt(i: nat, k: nat)
      requires Rep() && In(st.pools, i, k)
      ensures i < CLASSES == |pools| && k < |pools[i].ring| && pools[i].size == Size(i)
      ensures pools[i].ring[k].vAddress == PageAddr(At(st.pools, i, k).page)
    {
    }

    lemma RecordIs(i: nat, k: nat)
      requires Rep() && In(st.pools, i, k)
      ensures i < CLASSES == |pools| && k < |pools[i].ring| && pools[i] in Own
      ensures pools[i].ring[k] in Own && pools[i].ring[k].Is(i, At(st.pools, i, k))
    {
    }

    /** The bit and the four counters. */
    method ToggleSlot(i: nat, k: nat, index: nat)
      requires Rep() && In(st.pools, i, k) && index < |At(st.pools, i, k).bits|
      modifies this`st, pools[i], pools[i].Foot
      ensures pools[i].ring == old(pools[i].ring)
      ensures Rep() && st == old(st).(pools := ClearSlot(old(st).pools, i, k, index))
    {
      hide Shaped, SlabRecord.Is, PoolRecord.Is, PM.PageAllocator.Valid, PM.PageAllocator.State, ClearSlot;
      ToggledPools(st.pools, i, k, index);
      pools[i].Release(i, st.pools[i], k, index);
      st := st.(pools := ClearSlot(st.pools, i, k, index));
    }

    /** kfree once the slab is found: flip the bit, move the counters, and let the slab go when it
        is empty, not cache_pool, and the pool holds one and a half slabs of free objects. */
    method FreeSlot(i: nat, k: nat, index: nat)
      requires Valid() && In(st.pools, i, k) && Releasable(st.pools, i, k, index)
      modifies this`st, this`Own, Own, mem.bitsMap, mem.zones, mem.pages
      ensures Rep() && fresh(Own - old(Own))
      ensures st == FreeAt(old(st), i, k, index)
      decreases if i >= LARGE then 1 else 0, 1
    {
      hide Inv, Shaped, Table, PagesDistinct, SlabRecord.Is, Destroy, PutPage, ClearSlot, IsMeta, FreeAt, Live, MapFits;
      hide PM.PageAllocator.Valid, PM.PageAllocator.State, Zoned;
      ghost var h := st;
      FreeSteps(h, i, k, index);
      var pool, slab := pools[i], pools[i].ring[k];
      ToggleSlot(i, k, index);
      if slab.usingCount == 0 && pool.totalFree >= slab.colorCount * 3 / 2 && slab != pool.ring[0] {
        if pool.size <= 512 {
          ReleaseTail(i, k);
        } else {
          ghost var h1 := st;
          Charge(i, slab.colorCount);
          DoSlabDestroy(i, k, h1);
        }
      }
    }

    /** What kfree does with an empty slab of the small classes: everything is in its page. */
    method ReleaseTail(i: nat, k: nat)
      requires Rep() && In(st.pools, i, k) && k != 0 && i < CLASSES && Zoned(st.mem, At(st.pools, i, k).page)
      modifies this`st, this`Own, pools[i], mem.bitsMap, mem.zones, mem.pages
      ensures Rep() && Own <= old(Own)
      ensures st == Heap(Charged(Dropped(old(st).pools, i, k), i, At(old(st).pools, i, k).count),
                         PutPage(old(st).mem, At(old(st).pools, i, k).page))
    {
      hide Inv, Shaped, Table, PutPage, Records;
      RecordIs(i, k);
      var slab := pools[i].ring[k];
      Detach(i, k);
      Charge(i, slab.colorCount);
      CleanAndFreePage(slab.page);
    }

    /** list_del of slab k of pool i. */
    method Detach(i: nat, k: nat)
      requires Rep() && In(st.pools, i, k) && k != 0
      modifies this`st, this`Own, pools[i]
      ensures Rep() && st == old(st).(pools := Dropped(old(st).pools, i, k))
      ensures Own == old(Own) - {old(pools[i].ring[k]), old(pools[i].ring[k].colorMap)}
    {
      hide Inv, Shaped, Table, SlabRecord.Is, PM.PageAllocator.Valid, PM.PageAllocator.State;
      DroppedShape(st.pools, i, k);
      ghost var slab := pools[i].ring[k];
      pools[i].UnlinkSlab(k, i, st.pools[i]);
      Own := Own - {slab, slab.colorMap};
      st := st.(pools := Dropped(st.pools, i, k));
    }

    /** total_free -= n */
    method Charge(i: nat, n: int)
      requires Rep() && i < CLASSES
      modifies this`st, pools[i]
      ensures Rep() && st == old(st).(pools := Charged(old(st).pools, i, n))
      ensures pools[i].ring == old(pools[i].ring)
    {
      hide Inv, Shaped, Table, SlabRecord.Is;
      ChargedShape(st.pools, i, n);
      pools[i].totalFree := pools[i].totalFree - n;
      st := st.(pools := Charged(st.pools, i, n));
    }

    /** __do_Slab_destory, called with the free total of the pool already reduced; h is the state
        before that. */
    method DoSlabDestroy(i: nat, k: nat, ghost h: Heap)
      requires Rep() && LARGE <= i < CLASSES && In(h.pools, i, k) && k != 0 && Inv(h)
      requires st == h.(pools := Charged(h.pools, i, At(h.pools, i, k).count)) && At(h.pools, i, k).using == 0
      modifies this`st, this`Own, Own, mem.bitsMap, mem.zones, mem.pages
      ensures Valid() && fresh(Own - old(Own))
      ensures st == Destroy(h, i, k)
      decreases 1, 0
    {
      hide Inv, Shaped, Table, PagesDistinct, SmallFree, PutPage, H.Kfree, MayFree, LocatedLarge, Unlink, Destroy;
      hide PM.PageAllocator.Valid, PM.PageAllocator.State, Zoned, Dropped, Records;
      DestroySteps(h, i, k);
      RecordIs(i, k);
      var slab := pools[i].ring[k];
      assert At(st.pools, i, k) == At(h.pools, i, k);
      Detach(i, k);
      var _ := this.Kfree(slab.colorMapAddress);
      CleanAndFreePage(slab.page);
      var _ := this.Kfree(slab.address);
    }
  }

  // ---------------------------------------------------------------- start-up

  /** The first n pools have their data page, the others not yet. */
  function Partly(origin: nat, first: nat, n: nat): Pools {
    seq(CLASSES, i requires 0 <= i < CLASSES => FirstPool(origin, i, if i < n then first + i else 0))
  }

  lemma PartlyNone(origin: nat, first: nat)
    ensures Partly(origin, first, 0) == Unplaced(origin, CLASSES)
  {
  }

  lemma PartlyStep(origin: nat, first: nat, n: nat)
    requires n < CLASSES
    ensures Partly(origin, first, n)[n] == FirstPool(origin, n, 0)
    ensures Partly(origin, first, n + 1) == Partly(origin, first, n)[n := FirstPool(origin, n, first + n)]
  {
  }

  lemma PartlyAll(origin: nat, first: nat)
    ensures Partly(origin, first, CLASSES) == FirstPools(origin, first)
  {
  }

  // ---------------------------------------------------------------- proof steps of the methods

  /** kfree of an object in a self-contained class never goes further than that class. */
  lemma KfreeIsSmall(h: Heap, o: Obj)
    requires Inv(h) && User(h.pools, o) && o.cls < LARGE
    ensures MayFree(h, Addr(o)) && !LocatedLarge(h, Addr(o))
    ensures H.Kfree(h, Addr(o)) == (SmallFree(h, o), true)
  {
    UserMayBeFreed(h, o);
  }

  /** kfree of the address would reach a slab of the classes that keep header and bitmap elsewhere. */
  predicate LocatedLarge(h: Heap, address: int) {
    var at := Locate(h.pools, PageOf(address), 0, 0);
    at.Some? && at.value.0 >= LARGE
  }

  lemma HeaderCall(h: Heap, i: nat)
    requires Inv(h) && LARGE <= i < CLASSES
    ensures ClassOf(HEADER, 0) < LARGE && H.Kmalloc(h, HEADER) == SmallMalloc(h, HEADER_CLASS)
    ensures var (h1, r) := SmallMalloc(h, HEADER_CLASS);
      match r
      case None => H.GetNewSlab(h, i) == (h1, None)
      case Some(o) => Inv(h1) && o.cls == HEADER_CLASS && Added(h, h1, o) && User(h1.pools, o) && AddressOf(r) == Some(Addr(o))
  {
    MapClassIsSmall(i);
    SmallMallocOk(h, HEADER_CLASS);
    var (h1, r) := SmallMalloc(h, HEADER_CLASS);
    if r.Some? {
      HeaderIsUsers(h, h1, r.value);
    }
  }

  lemma PageCall(h: Heap, i: nat)
    requires Inv(h) && LARGE <= i < CLASSES && SmallMalloc(h, HEADER_CLASS).1.Some?
    ensures var (h1, header) := SmallMalloc(h, HEADER_CLASS);
      var (m, page) := GetPage(h1.mem);
      match page
      case None =>
        && m == h1.mem && MayFree(h1, Addr(header.value)) && !LocatedLarge(h1, Addr(header.value))
        && H.Kfree(h1, Addr(header.value)) == (SmallFree(h1, header.value), true)
        && H.GetNewSlab(h, i) == (SmallFree(h1, header.value), None)
      case Some(p) => Inv(h1.(mem := m)) && HalfWay(h, h1, m, i, header.value, p)
  {
    hide Inv, Live, IsMeta, PageOk, SmallMalloc, GetPage, Keeps, Added, MayFree, LocatedLarge, SmallFree, H.Kfree, IsSlabPage;
    HeaderCall(h, i);
    MapClassIsSmall(i);
    SmallMallocOk(h, HEADER_CLASS);
    var (h1, header) := SmallMalloc(h, HEADER_CLASS);
    GetPageOk(h1.mem);
    var (m, page) := GetPage(h1.mem);
    if page.None? {
      KfreeIsSmall(h1, header.value);
    } else {
      SwapMemory(h1, m);
    }
  }

  lemma MapCall(h: Heap, h1: Heap, m: Memory, i: nat, header: Obj, page: nat)
    requires HalfWay(h, h1, m, i, header, page) && SmallMalloc(h, HEADER_CLASS) == (h1, Some(header))
    ensures ClassOf(MapBytes(FullCount(i)), 0) < LARGE
    ensures var h2 := h1.(mem := m);
      var (h3, bitmap) := SmallMalloc(h2, MapClass(i));
      && H.Kmalloc(h2, MapBytes(FullCount(i))) == (h3, bitmap)
      && match bitmap
         case None =>
           var h4 := h3.(mem := DropPage(h3.mem, page));
           && Zoned(h3.mem, page) && Inv(h4) && MayFree(h4, Addr(header)) && !LocatedLarge(h4, Addr(header))
           && H.Kfree(h4, Addr(header)) == (SmallFree(h4, header), true)
           && H.GetNewSlab(h, i) == (SmallFree(h4, header), None)
         case Some(o) =>
           && o.cls < CLASSES && AddressOf(bitmap) == Some(Addr(o))
           && H.GetNewSlab(h, i) == (h3, Some(FreshLarge(i, page, header, o)))
  {
    hide Inv, Live, IsMeta, PageOk, SmallMalloc, GetPage, DropPage, Keeps, SamePlan, MayFree, LocatedLarge, SmallFree, H.Kfree, IsSlabPage;
    MapClassIsSmall(i);
    assert MapBytes(FullCount(i)) <= 256;
    GetMapStep(h, h1, m, i, header, page);
    if SmallMalloc(h1.(mem := m), MapClass(i)).1.None? {
      PageIsUndone(h, h1, m, i, header, page);
      PageOkZoned(m, page);
      KfreeIsSmall(h1.(mem := DropPage(m, page)), header);
    }
  }

  lemma MallocSteps(h: Heap, i: nat)
    requires Inv(h) && i < CLASSES
    ensures h.pools[i].ring != [] && Shaped(h.pools)
    ensures h.pools[i].free != 0 ==>
      var k := FindSlab(h.pools[i].ring, 0);
      In(h.pools, i, k) && BitsOk(At(h.pools, i, k)) && MallocClass(h, i) == H.SlabMalloc(h, i, k)
    ensures h.pools[i].free == 0 ==>
      var (h1, r) := CreateSlab(h, i);
      match r
      case None => MallocClass(h, i) == (h1, None)
      case Some(s) =>
        && BitsOk(s) && MapFits(s) && Shaped(Link(h1.pools, i, s))
        && In(Link(h1.pools, i, s), i, |h1.pools[i].ring|) && At(Link(h1.pools, i, s), i, |h1.pools[i].ring|) == s
        && MallocClass(h, i) == H.SlabMalloc(h1.(pools := Link(h1.pools, i, s)), i, |h1.pools[i].ring|)
  {
    assert In(h.pools, i, 0);
    if h.pools[i].free != 0 {
      PoolHasRoom(h, i);
      assert SlabOk(i, FindSlab(h.pools[i].ring, 0), At(h.pools, i, FindSlab(h.pools[i].ring, 0)));
    } else if CreateSlab(h, i).1.Some? {
      var (h1, r) := CreateSlab(h, i);
      if i < LARGE {
        FreshBitsOk(TailCount(i));
      } else {
        FreshBitsOk(FullCount(i));
      }
      ShapedAfter(h1.pools, i, 0, r.value, 0);
      Positions(h1.pools, i, 0, r.value, 0);
    }
  }

  /** The ring without slab k, totals untouched. */
  function Dropped(ps: Pools, i: nat, k: nat): Pools
    requires In(ps, i, k)
  {
    ps[i := ps[i].(ring := ps[i].ring[..k] + ps[i].ring[k + 1..])]
  }

  function Charged(ps: Pools, i: nat, n: int): Pools
    requires i < |ps|
  {
    ps[i := ps[i].(free := ps[i].free - n)]
  }

  lemma DroppedShape(ps: Pools, i: nat, k: nat)
    requires Shaped(ps) && In(ps, i, k) && k != 0
    ensures Shaped(Dropped(ps, i, k))
  {
    var q := Dropped(ps, i, k);
    forall i': nat, k': nat | In(q, i', k')
      ensures MapFits(At(q, i', k'))
    {
      assert In(ps, i', Back(i, k, i', k'));
      assert At(q, i', k') == At(ps, i', Back(i, k, i', k'));
    }
    forall i': nat | i' < CLASSES
      ensures In(q, i', 0)
    {
      assert In(ps, i', 0);
    }
  }

  lemma ChargedShape(ps: Pools, i: nat, n: int)
    requires Shaped(ps) && i < CLASSES
    ensures Shaped(Charged(ps, i, n))
  {
    var q := Charged(ps, i, n);
    forall i': nat, k': nat | In(q, i', k')
      ensures MapFits(At(q, i', k'))
    {
      assert In(ps, i', k') && At(q, i', k') == At(ps, i', k');
    }
    forall i': nat | i' < CLASSES
      ensures In(q, i', 0)
    {
      assert In(ps, i', 0);
    }
  }

  lemma ToggledPools(ps: Pools, i: nat, k: nat, j: nat)
    requires Shaped(ps) && In(ps, i, k) && j < |At(ps, i, k).bits|
    ensures i < CLASSES && Shaped(ClearSlot(ps, i, k, j))
    ensures ClearSlot(ps, i, k, j) == ps[i := Pool(ps[i].using - 1, ps[i].free + 1, ps[i].ring[k := Released(At(ps, i, k), j)])]
  {
  }

  /** The states kfree passes through. */
  lemma FreeSteps(h: Heap, i: nat, k: nat, j: nat)
    requires Inv(h) && In(h.pools, i, k) && Releasable(h.pools, i, k, j)
    ensures i < CLASSES && Shaped(h.pools)
    ensures var ps := ClearSlot(h.pools, i, k, j);
      var s := At(ps, i, k);
      && ps == h.pools[i := Pool(h.pools[i].using - 1, h.pools[i].free + 1, h.pools[i].ring[k := Released(At(h.pools, i, k), j)])]
      && Inv(h.(pools := ps)) && s.page == At(h.pools, i, k).page && Zoned(h.mem, s.page)
      && (Size(i) <= 512 <==> i < LARGE)
      && FreeAt(h, i, k, j) ==
           if s.using == 0 && ps[i].free >= s.count * 3 / 2 && k != 0 then
             if i < LARGE then Heap(Charged(Dropped(ps, i, k), i, s.count), PutPage(h.mem, s.page))
             else Destroy(Heap(ps, h.mem), i, k)
           else Heap(ps, h.mem)
  {
    hide Inv, Live, IsMeta, Keeps, Balance, PageOk, Zoned, MemInv, Shaped, PutPage, Destroy;
    ClearOk(h, i, k, j);
    SlabPageZoned(h, i, k);
  }

  lemma SlabPageZoned(h: Heap, i: nat, k: nat)
    requires Inv(h) && In(h.pools, i, k)
    ensures i < CLASSES && Zoned(h.mem, At(h.pools, i, k).page)
  {
    assert PageOk(h.mem, At(h.pools, i, k).page);
  }

  /** The states __do_Slab_destory passes through. */
  lemma DestroySteps(h: Heap, i: nat, k: nat)
    requires Inv(h) && LARGE <= i < CLASSES && In(h.pools, i, k) && k != 0 && At(h.pools, i, k).using == 0
    ensures Shaped(h.pools)
    ensures In(Charged(h.pools, i, At(h.pools, i, k).count), i, k)
    ensures Dropped(Charged(h.pools, i, At(h.pools, i, k).count), i, k) == Unlink(h.pools, i, k)
    ensures var s := At(h.pools, i, k);
      var h0 := h.(pools := Unlink(h.pools, i, k));
      && Inv(h0)
      && MayFree(h0, PlaceOf(i, s, false)) && !LocatedLarge(h0, PlaceOf(i, s, false))
      && var h1 := H.Kfree(h0, PlaceOf(i, s, false)).0;
      && Inv(h1) && Zoned(h1.mem, s.page)
      && var h2 := h1.(mem := PutPage(h1.mem, s.page));
      && Inv(h2) && MayFree(h2, PlaceOf(i, s, true)) && !LocatedLarge(h2, PlaceOf(i, s, true))
      && H.Kfree(h2, PlaceOf(i, s, true)).0 == Destroy(h, i, k) && Inv(Destroy(h, i, k))
  {
    hide Inv, Live, IsMeta, Keeps, PageOk, IsSlabPage, Balance, SmallFree, PutPage, Shaped, MayFree, LocatedLarge, H.Kfree;
    var s := At(h.pools, i, k);
    OwnObjects(h, i, k);
    UnlinkOk(h, i, k);
    var h0 := h.(pools := Unlink(h.pools, i, k));
    KfreeIsSmall(h0, s.colorMap.obj);
    SmallFreeOk(h0, s.colorMap.obj);
    var h1 := SmallFree(h0, s.colorMap.obj);
    PageStays(h0, h1, s.page);
    PageOkZoned(h1.mem, s.page);
    ReturnPage(h1, s.page);
    var h2 := h1.(mem := PutPage(h1.mem, s.page));
    KfreeIsSmall(h2, s.header.obj);
    DestroyOk(h, i, k);
  }

  lemma PageOkZoned(m: Memory, p: nat)
    requires PageOk(m, p)
    ensures Zoned(m, p)
  {
  }

  function AddressOf(o: Option<Obj>): Option<int> {
    if o.Some? && o.value.cls < CLASSES then Some(Addr(o.value)) else None
  }

  lemma FirstClearIs(bits: seq<bool>, from: nat, j: nat, count: nat)
    requires from <= j <= count <= |bits| && (j < count ==> !bits[j])
    requires forall l :: from <= l < j ==> bits[l]
    ensures FirstClear(bits, from, count) == j
  {
  }

  /** The slab and pool seen by __do_slab_malloc. */
  lemma SlabMallocPool(h: Heap, i: nat, k: nat)
    requires Shaped(h.pools) && In(h.pools, i, k)
    ensures i < CLASSES
    ensures var s := At(h.pools, i, k);
      && s.count <= |s.bits|
      && var j := FirstClear(s.bits, 0, s.count);
      && var (h', r) := H.SlabMalloc(h, i, k);
      && h'.mem == h.mem && Shaped(h'.pools)
      && h'.pools == h.pools[i := if j == s.count then h.pools[i]
           else Pool(h.pools[i].using + 1, h.pools[i].free - 1, h.pools[i].ring[k := Occupied(s, j)])]
      && AddressOf(r) == if j == s.count then None else Some(PageAddr(s.page) + j * Size(i))
  {
    assert MapFits(At(h.pools, i, k));
  }

  lemma OneIsRun(m: Memory, p: nat)
    requires Zoned(m, p)
    ensures BackedRun(m, p, 1) && ZonedRun(m, p, 1)
    ensures Pages.FreePages(m, Some(p), 1) == DropPage(m, p)
  {
    assert FreeRun(m, p, 1) == FreeOne(m, p, m.pages[p].zone.value);
  }
}
