/** From the memory map to the first heap: init_memory and kmalloc_slab_init one after the other. */
module StartUp {
  import opened Options
  import opened Pages
  import opened E820
  import opened ZoneMap
  import opened Heap
  import opened HeapInvariant
  import opened HeapStart
  import opened HeapSafety
  import opened PageReferences
  import opened HeapReferences
  import KernelHeap
  import PM = PhysicalMemory

  /** End of the boot data once the heap has taken its share, as a virtual address. */
  function HeapEnd(end: nat): nat {
    LayoutEnd(PAGE_OFFSET + end, CLASSES)
  }

  lemma HeapEndIs(end: nat)
    ensures HeapEnd(end) == LayoutEnd(PAGE_OFFSET + end, CLASSES)
  {
  }

  /** The boot data does not end at address 0, the map leaves page 0 out, and it has RAM from there to sixteen pages behind the boot data. */
  ghost predicate EnoughRam(table: seq<Entry>, end: nat) {
    && 0 < end && Separated(table) && ZonesOf(table) != [] && PAGE_OFFSET + end <= HeapEnd(end) && !WholePage(table, 0)
    && forall p: nat :: 1 <= p < DataPage(HeapEnd(end)) + CLASSES ==> WholePage(table, p)
  }

  /** The kernel's start: the heap it builds is valid exactly when neither end of boot data is a page
      boundary, and every page it or the boot data take is the kernel's, with one reference. */
  method Boot(table: seq<Entry>, end: nat) returns (heap: KernelHeap.KernelHeap)
    requires EnoughRam(table, end)
    ensures fresh(heap) && heap.Rep()
    ensures heap.Valid() <==> end % PAGE != 0 && HeapEnd(end) % PAGE != 0
    ensures forall o :: !Live(heap.st.pools, o)
    ensures Accounted(heap.st, Client({}, {}))
    ensures KernelPages(heap.st.mem.pages, 1, DataPage(HeapEnd(end)) + CLASSES)
  {
    hide KernelHeap.KernelHeap.Rep, KernelHeap.KernelHeap.Valid, Conserved, ReserveRun, SetUp, HeapEnd, LayoutEnd, RoomFor;
    hide Untouched, Accounted, Others, Unreferenced, Within, DescribedAs, KernelPages, Sole;
    hide Live, FirstPools, DataPage, Zoned, RunClear, ZonedRun, BackedRun, Table, WholePage, ZonesOf, FreshPage;
    var mem := new PM.PageAllocator(table);
    ghost var m := mem.State();
    BootPagesFree(table, end, m);
    NewPagesFresh(table, end, m);
    mem.ReserveBoot(end);
    BootLeavesRoom(table, end, m, mem.State());
    BootUntouched(table, end, m, mem.State());
    FirstAccounted(mem.State(), mem.endOfStruct, HeapEnd(end));
    BootPagesTaken(mem.State(), end);
    assert HeapEnd(end) == LayoutEnd(mem.endOfStruct, CLASSES) by {
      HeapEndIs(end);
    }
    heap := new KernelHeap.KernelHeap(mem);
  }

  /** Page p of the map is a page of a zone, and free. */
  ghost predicate FreshPage(m: Memory, p: nat) {
    Zoned(m, p) && Backed(m, p) && p < |m.used| && !m.used[p]
  }

  lemma RamIsZoned(table: seq<Entry>, m: Memory, p: nat)
    requires Table(m) && (forall i: nat :: i < |m.used| ==> (!m.used[i] <==> WholePage(table, i)))
    requires m.zones == ZonesOf(table) && WholePage(table, p)
    ensures FreshPage(m, p)
  {
    ZonesAreExact(table, p);
    var z: nat :| z < |m.zones| && Within(m.zones[z], p);
    assert InZone(m, z, p) && Described(m, p, z);
  }

  lemma BootPagesFree(table: seq<Entry>, end: nat, m: Memory)
    requires EnoughRam(table, end) && Table(m) && m.zones == ZonesOf(table)
    requires forall i: nat :: i < |m.used| ==> (!m.used[i] <==> WholePage(table, i))
    ensures forall p: nat :: 1 <= p < DataPage(HeapEnd(end)) + CLASSES ==> FreshPage(m, p)
    ensures end / PAGE + 1 <= DataPage(HeapEnd(end)) + CLASSES
    ensures BackedRun(m, 1, end / PAGE) && ZonedRun(m, 1, end / PAGE) && RunClear(m.used, 1, end / PAGE)
  {
    forall p: nat | 1 <= p < DataPage(HeapEnd(end)) + CLASSES
      ensures FreshPage(m, p)
    {
      RamIsZoned(table, m, p);
    }
    forall l | 1 <= l < 1 + end / PAGE
      ensures Zoned(m, l) && Backed(m, l) && l < |m.used| && !m.used[l]
    {
      assert FreshPage(m, l);
    }
  }

  /** Right after construction no page but page 0 has a reference or an attribute. */
  lemma NewPagesFresh(table: seq<Entry>, end: nat, m: Memory)
    requires EnoughRam(table, end) && Table(m) && m.zones == ZonesOf(table)
    requires forall i: nat :: i < |m.used| ==> (!m.used[i] <==> WholePage(table, i))
    requires |m.pages| <= |m.used|
    requires forall z: nat, i: nat :: z < |m.zones| && Within(m.zones[z], i) && 0 < i < |m.pages| ==>
      m.pages[i] == Page(Some(z), i * PAGE, {}, 0)
    ensures Unreferenced(m) && Sole(m.pages, 1, DataPage(HeapEnd(end)) + CLASSES)
  {
    forall p: nat | 0 < p < |m.pages| && WholePage(table, p)
      ensures m.pages[p].refs == 0 && m.pages[p].attribute == {}
    {
      ZonesAreExact(table, p);
      var z: nat :| z < |m.zones| && Within(m.zones[z], p);
    }
  }

  lemma BootUntouched(table: seq<Entry>, end: nat, m: Memory, m': Memory)
    requires EnoughRam(table, end) && Table(m) && Conserved(m) && |m.pages| <= |m.used|
    requires Unreferenced(m) && Sole(m.pages, 1, DataPage(HeapEnd(end)) + CLASSES)
    requires end / PAGE + 1 <= DataPage(HeapEnd(end)) + CLASSES && ZonedRun(m, 1, end / PAGE)
    requires var m0 := m.(endOfStruct := PAGE_OFFSET + end); BackedRun(m0, 1, end / PAGE) && m' == ReserveRun(m0, 1, end / PAGE, BOOT_FLAGS)
    requires m'.endOfStruct == PAGE_OFFSET + end
    ensures Untouched(m', HeapEnd(end)) && KernelPages(m'.pages, 1, end / PAGE + 1)
  {
    hide Table, Conserved, ReserveRun, Zoned, HeapEnd, LayoutEnd, NeverAhead, BackedRun, Unreferenced;
    var m0 := m.(endOfStruct := PAGE_OFFSET + end);
    EndMoves(m, PAGE_OFFSET + end, 1, end / PAGE);
    ConservedIsBehind(m0);
    SameUnreferenced(m, m0);
    RunRefs(m0, 1, end / PAGE, 1, DataPage(HeapEnd(end)) + CLASSES);
  }

  lemma BootPagesTaken(m: Memory, end: nat)
    requires Table(m) && Conserved(m) && RoomFor(m, HeapEnd(end)) && Untouched(m, HeapEnd(end))
    requires m.endOfStruct == PAGE_OFFSET + end && KernelPages(m.pages, 1, end / PAGE + 1)
    ensures KernelPages(SetUp(m, HeapEnd(end)).pages, 1, DataPage(HeapEnd(end)) + CLASSES)
  {
    hide Table, Conserved, RoomFor, SetUp, HeapEnd, DataPage, Untouched, Unreferenced;
    SetUpRefs(m, HeapEnd(end));
  }

  lemma SameUnreferenced(m: Memory, m0: Memory)
    requires Unreferenced(m) && m0.pages == m.pages && m0.used == m.used
    ensures Unreferenced(m0)
  {
  }

  lemma BootLeavesRoom(table: seq<Entry>, end: nat, m: Memory, m': Memory)
    requires EnoughRam(table, end) && Table(m) && Conserved(m)
    requires forall i: nat :: i < |m.used| ==> (!m.used[i] <==> WholePage(table, i))
    requires forall p: nat :: 1 <= p < DataPage(HeapEnd(end)) + CLASSES ==> FreshPage(m, p)
    requires RunClear(m.used, 1, end / PAGE) && ZonedRun(m, 1, end / PAGE)
    requires var m0 := m.(endOfStruct := PAGE_OFFSET + end); BackedRun(m0, 1, end / PAGE) && m' == ReserveRun(m0, 1, end / PAGE, BOOT_FLAGS)
    ensures Table(m') && Conserved(m') && m'.endOfStruct == PAGE_OFFSET + end && RoomFor(m', HeapEnd(end))
  {
    hide Table, Conserved, ReserveRun, Zoned, HeapEnd, LayoutEnd, NeverAhead;
    var m0 := m.(endOfStruct := PAGE_OFFSET + end);
    EndMoves(m, PAGE_OFFSET + end, 1, end / PAGE);
    ConservedIsBehind(m0);
    ReserveRunConserves(m0, 1, end / PAGE, BOOT_FLAGS);
    PagesInOrder(PAGE_OFFSET + end, HeapEnd(end));
    assert m'.endOfStruct == PAGE_OFFSET + end;
    forall p: nat | PageFrom(m'.endOfStruct) <= p < DataPage(HeapEnd(end)) + CLASSES
      ensures Roomy(m', p)
    {
      assert FreshPage(m, p);
      SamePlanZoned(m0, m', p);
    }
    forall p: nat | p < |m'.used| && PageAddr(p) < m'.endOfStruct
      ensures m'.used[p]
    {
      assert p <= end / PAGE;
    }
  }

  // ---------------------------------------------------------------- how much the heap takes, and two bad ends

  /** Bytes that headers and bitmaps of the first i pools take. */
  function Share(i: nat): nat
    requires i <= CLASSES
  {
    if i == 0 then 0 else Share(i - 1) + HEADER + 80 + MapBytes(FullCount(i - 1)) + 80
  }

  lemma {:induction false} LayoutShare(origin: nat, i: nat)
    requires i <= CLASSES && origin % 8 == 0
    ensures LayoutEnd(origin, i) == origin + Share(i) && Share(i) % 8 == 0
  {
    if i > 0 {
      hide *;
      LayoutShare(origin, i - 1);
      var taken := OneShare(origin, i);
      Rounded(origin, Share(i - 1), taken);
    } else {
      NoShare(origin);
    }
  }

  lemma NoShare(origin: nat)
    ensures LayoutEnd(origin, 0) == origin && Share(0) == 0
  {
  }

  lemma OneShare(origin: nat, i: nat) returns (taken: nat)
    requires 0 < i <= CLASSES
    ensures LayoutEnd(origin, i) == (LayoutEnd(origin, i - 1) + taken) / 8 * 8
    ensures Share(i) == Share(i - 1) + taken && taken % 8 == 0
  {
    hide MapBytes, FullCount;
    WholeWords(FullCount(i - 1));
    taken := HEADER + 80 + MapBytes(FullCount(i - 1)) + 80;
    Tidy(LayoutEnd(origin, i - 1), MapBytes(FullCount(i - 1)));
  }

  lemma Tidy(origin: nat, bytes: nat)
    ensures origin + HEADER + 80 + bytes + 80 == origin + (HEADER + 80 + bytes + 80)
    ensures bytes % 8 == 0 ==> (HEADER + 80 + bytes + 80) % 8 == 0
  {
  }

  lemma Rounded(a: nat, b: nat, c: nat)
    requires a % 8 == 0 && b % 8 == 0 && c % 8 == 0
    ensures (a + b + c) / 8 * 8 == a + b + c && (b + c) % 8 == 0
  {
  }

  lemma WholeWords(count: nat)
    ensures MapBytes(count) % 8 == 0
  {
  }

  /** init_memory ends the boot data on a multiple of eight; the heap then takes 20128 bytes. */
  lemma HeapTakes(end: nat)
    requires end % 8 == 0
    ensures HeapEnd(end) == PAGE_OFFSET + end + 20128
  {
    hide LayoutEnd, Share;
    LayoutShare(PAGE_OFFSET + end, CLASSES);
    ShareOfAll();
  }

  lemma ShareOfAll()
    ensures Share(CLASSES) == 20128
  {
    BitmapBytes();
    hide FullCount, MapBytes;
    assert Share(3) == 14336 + 3 * 232;
    assert Share(6) == 16128 + 6 * 232;
    assert Share(9) == 16352 + 9 * 232;
    assert Share(12) == 16384 + 12 * 232;
  }

  lemma BitmapBytes()
    ensures MapBytes(FullCount(0)) == 8192 && MapBytes(FullCount(1)) == 4096 && MapBytes(FullCount(2)) == 2048
    ensures MapBytes(FullCount(3)) == 1024 && MapBytes(FullCount(4)) == 512 && MapBytes(FullCount(5)) == 256
    ensures MapBytes(FullCount(6)) == 128 && MapBytes(FullCount(7)) == 64 && MapBytes(FullCount(8)) == 32
    ensures MapBytes(FullCount(9)) == 16
    ensures forall i :: 10 <= i < CLASSES ==> MapBytes(FullCount(i)) == 8
  {
  }

  /** Forty pages of RAM from page 1 on. */
  const SMALL_MAP := [Entry(PAGE, 40 * PAGE, 1)]

  /** Both ways to go wrong exist: boot data that ends with page 0, and boot data that ends 20128 bytes
      before it. For these the heap that Boot builds is not valid. */
  lemma BadEnds()
    ensures EnoughRam(SMALL_MAP, PAGE) && PAGE % PAGE == 0
    ensures EnoughRam(SMALL_MAP, PAGE - 20128) && HeapEnd(PAGE - 20128) % PAGE == 0
  {
    HeapTakes(PAGE);
    HeapTakes(PAGE - 20128);
    hide HeapEnd, LayoutEnd;
    SmallMap(PAGE);
    SmallMap(PAGE - 20128);
  }

  lemma SmallMap(end: nat)
    requires 0 < end <= PAGE && HeapEnd(end) == PAGE_OFFSET + end + 20128
    ensures EnoughRam(SMALL_MAP, end)
  {
    hide HeapEnd, LayoutEnd;
    var e := SMALL_MAP[0];
    assert SMALL_MAP[..0] == [] && ZonesOf(SMALL_MAP) == [ZoneOf(e)];
    forall p: nat | 1 <= p < DataPage(HeapEnd(end)) + CLASSES
      ensures WholePage(SMALL_MAP, p)
    {
      assert PageInside(e, p);
    }
  }
}
