/** The physical page allocator as a value: the page bitmap, the zones with their counters and the
    page descriptors, with the effect of alloc_pages, free_pages, page_init and page_clean. The
    class PhysicalMemory carries the same operations out on words and arrays. */
module Pages {
  import opened Options
  import opened Words

  /** Kernel virtual address of physical address 0. */
  const PAGE_OFFSET := 0xffff_8000_0000_0000

  /** PAGE_2M_SIZE */
  const PAGE := 0x20_0000

  datatype Flag = Mapped | KernelInit | Device | Kernel | Shared

  /** `struct Page`; `zone` is the index behind the zone pointer. */
  datatype Page = Page(zone: Option<nat>, phys: nat, attribute: set<Flag>, refs: int)

  /** `struct Zone`; addresses are in bytes and the range is half open. */
  datatype Zone = Zone(startAddr: nat, endAddr: nat, pagesLength: nat,
                       usingCount: int, freeCount: int, link: int)

  /** The global memory descriptor. `used[i]` is bit i of bits_map, whole words of it; boot data
      ends at the virtual address endOfStruct. */
  datatype Memory = Memory(used: seq<bool>, zones: seq<Zone>, pages: seq<Page>,
                           dma: nat, normal: nat, unmapped: nat, endOfStruct: int)

  datatype ZoneSelect = ZoneDma | ZoneNormal | ZoneUnmapped | OtherZone

  function Lo(z: Zone): nat { z.startAddr / PAGE }
  function Hi(z: Zone): nat { z.endAddr / PAGE }

  /** One past the last run start that the scan of a zone tries: it always finishes the word that
      contains the end of the zone. */
  function ScanEnd(z: Zone): nat { BITS * (Hi(z) / BITS + 1) }

  predicate InZone(m: Memory, z: nat, i: nat)
    requires z < |m.zones|
  {
    Lo(m.zones[z]) <= i < Hi(m.zones[z])
  }

  /** The descriptor of page i is filled in and names zone z. */
  predicate Described(m: Memory, i: nat, z: nat) {
    && i < |m.pages| && i < |m.used| && z < |m.zones|
    && m.pages[i].zone == Some(z)
    && m.pages[i].phys == i * PAGE
  }

  /** The bitmap, the zones and the descriptors fit together: whole words, readable one word past
      every scan, zones aligned and disjoint, every zone page described, and no bit clear outside
      the zones. */
  ghost predicate Table(m: Memory) {
    && |m.used| % BITS == 0
    && m.dma < |m.zones| && m.normal < |m.zones|
    && (forall z :: 0 <= z < |m.zones| ==> ZoneShape(m, z))
    && (forall z, i :: 0 <= z < |m.zones| && 0 <= i && InZone(m, z, i) ==> Described(m, i, z))
    && (forall i :: 0 <= i < |m.used| && !InSomeZone(m, i) ==> m.used[i])
  }

  predicate ZoneShape(m: Memory, z: nat)
    requires z < |m.zones|
  {
    var zone := m.zones[z];
    && Lo(zone) <= Hi(zone)
    && zone.startAddr == Lo(zone) * PAGE
    && zone.endAddr == Hi(zone) * PAGE
    && zone.pagesLength == Hi(zone) - Lo(zone)
    && ScanEnd(zone) + BITS <= |m.used|
  }

  predicate InSomeZone(m: Memory, i: nat) {
    exists z: nat :: z < |m.zones| && InZone(m, z, i)
  }

  /** Number of clear bits in a range of the bitmap. */
  function CountClear(used: seq<bool>, lo: nat, hi: nat): nat
    requires hi <= |used|
    decreases hi
  {
    if hi <= lo then 0 else CountClear(used, lo, hi - 1) + (if used[hi - 1] then 0 else 1)
  }

  predicate ZoneExact(m: Memory, z: nat)
    requires z < |m.zones| && ZoneShape(m, z)
  {
    && m.zones[z].freeCount == CountClear(m.used, Lo(m.zones[z]), Hi(m.zones[z]))
    && m.zones[z].freeCount + m.zones[z].usingCount == m.zones[z].pagesLength
  }

  /** Page conservation: the counters of every zone say what its bits say. */
  ghost predicate Conserved(m: Memory)
    requires Table(m)
  {
    forall z :: 0 <= z < |m.zones| ==> ZoneExact(m, z)
  }

  // ---------------------------------------------------------------- alloc_pages

  predicate RunFree(used: seq<bool>, p: nat, n: nat) {
    p + n <= |used| && forall l :: p <= l < p + n ==> !used[l]
  }

  /** First fit, one candidate start at a time. */
  function FirstRun(used: seq<bool>, p: nat, limit: nat, n: nat): (r: Option<nat>)
    ensures r.Some? ==> p <= r.value < limit && RunFree(used, r.value, n)
    decreases limit - p
  {
    if p >= limit then None
    else if RunFree(used, p, n) then Some(p)
    else FirstRun(used, p + 1, limit, n)
  }

  /** The first zone of the selected range whose counter allows the request. */
  function FirstZone(zones: seq<Zone>, i: nat, last: int, n: nat): (r: Option<nat>)
    ensures r.Some? ==> i <= r.value < |zones| && r.value <= last && zones[r.value].freeCount >= n
    decreases |zones| - i
  {
    if i >= |zones| || i > last then None
    else if zones[i].freeCount >= n then Some(i)
    else FirstZone(zones, i + 1, last, n)
  }

  /** First and last zone index and the page attribute that a zone selector stands for. */
  function Selected(m: Memory, sel: ZoneSelect): (nat, int, set<Flag>) {
    match sel
    case ZoneDma => (0, m.dma, {Mapped})
    case ZoneNormal => (m.dma, m.normal, {Mapped})
    case ZoneUnmapped => (m.unmapped, |m.zones| - 1, {})
    case OtherZone => (0, -1, {})
  }

  /** Occupies the run of n pages at p on behalf of zone z. */
  function Take(m: Memory, z: nat, p: nat, n: nat, attr: set<Flag>): Memory
    requires z < |m.zones|
  {
    m.(used := seq(|m.used|, i requires 0 <= i < |m.used| => m.used[i] || p <= i < p + n),
       zones := m.zones[z := m.zones[z].(freeCount := m.zones[z].freeCount - n,
                                         usingCount := m.zones[z].usingCount + n)],
       pages := seq(|m.pages|, i requires 0 <= i < |m.pages| =>
         if p <= i < p + n then m.pages[i].(attribute := attr) else m.pages[i]))
  }

  /** alloc_pages: the first zone with enough free pages decides; if that zone has no run the
      request fails even when a later zone has one. */
  function AllocPages(m: Memory, sel: ZoneSelect, n: int): (Memory, Option<nat>) {
    if n >= BITS || n <= 0 then (m, None)
    else
      var (first, last, attr) := Selected(m, sel);
      match FirstZone(m.zones, first, last, n)
      case None => (m, None)
      case Some(z) =>
        match FirstRun(m.used, Lo(m.zones[z]), ScanEnd(m.zones[z]), n)
        case None => (m, None)
        case Some(p) => (Take(m, z, p, n, attr), Some(p))
  }

  // ---------------------------------------------------------------- free_pages

  /** Gives one page back to the zone its descriptor names. */
  function FreeOne(m: Memory, i: nat, z: nat): Memory
    requires Described(m, i, z)
  {
    m.(used := m.used[i := false],
       zones := m.zones[z := m.zones[z].(freeCount := m.zones[z].freeCount + 1,
                                         usingCount := m.zones[z].usingCount - 1)],
       pages := m.pages[i := m.pages[i].(attribute := {})])
  }

  predicate Backed(m: Memory, i: nat) {
    i < |m.pages| && m.pages[i].zone.Some? && Described(m, i, m.pages[i].zone.value)
  }

  lemma BackedAfterFree(m: Memory, p: nat, n: nat)
    requires 0 < n && BackedRun(m, p, n) && Backed(m, p)
    ensures BackedRun(FreeOne(m, p, m.pages[p].zone.value), p + 1, n - 1)
  {
    forall l | p + 1 <= l < p + n
      ensures Backed(FreeOne(m, p, m.pages[p].zone.value), l)
    {
      assert Backed(m, l);
    }
  }

  predicate BackedRun(m: Memory, p: nat, n: nat) {
    forall l :: p <= l < p + n ==> Backed(m, l)
  }

  function FreeRun(m: Memory, p: nat, n: nat): Memory
    requires BackedRun(m, p, n)
    decreases n
  {
    if n == 0 then m
    else
      assert Backed(m, p);
      BackedAfterFree(m, p, n);
      FreeRun(FreeOne(m, p, m.pages[p].zone.value), p + 1, n - 1)
  }

  function FreePages(m: Memory, page: Option<nat>, n: int): Memory
    requires page.Some? && 0 < n < BITS ==> BackedRun(m, page.value, n)
  {
    if page.None? || n >= BITS || n <= 0 then m else FreeRun(m, page.value, n)
  }

  // ---------------------------------------------------------------- page_init, page_clean

  function PageInit(m: Memory, i: nat, z: nat, flags: set<Flag>): Memory
    requires Described(m, i, z)
  {
    var p := m.pages[i].(attribute := m.pages[i].attribute + flags);
    if p.refs == 0 || Shared in p.attribute then
      m.(pages := m.pages[i := p.(refs := p.refs + 1)],
         zones := m.zones[z := m.zones[z].(link := m.zones[z].link + 1)])
    else
      m.(pages := m.pages[i := p])
  }

  function PageClean(m: Memory, i: nat, z: nat): Memory
    requires Described(m, i, z)
  {
    var p := m.pages[i].(refs := m.pages[i].refs - 1);
    m.(pages := m.pages[i := if p.refs == 0 then p.(attribute := p.attribute * {Mapped}) else p],
       zones := m.zones[z := m.zones[z].(link := m.zones[z].link - 1)])
  }

  /** m and m' lay out the same zones over the same pages. */
  ghost predicate SamePlan(m: Memory, m': Memory) {
    && |m.used| == |m'.used| && |m.zones| == |m'.zones| && |m.pages| == |m'.pages|
    && m.endOfStruct == m'.endOfStruct
    && (forall z: nat :: z < |m.zones| ==> Lo(m.zones[z]) == Lo(m'.zones[z]) && Hi(m.zones[z]) == Hi(m'.zones[z]))
    && (forall i: nat :: i < |m.pages| ==> m.pages[i].zone == m'.pages[i].zone && m.pages[i].phys == m'.pages[i].phys)
  }

  lemma SamePlanZoned(m: Memory, m': Memory, p: nat)
    requires SamePlan(m, m')
    ensures Zoned(m, p) <==> Zoned(m', p)
  {
  }

  /** Where the boot data ends is no concern of the allocator. */
  lemma EndMoves(m: Memory, end: int, p: nat, n: nat)
    requires Table(m)
    ensures var m' := m.(endOfStruct := end);
      && Table(m') && (Conserved(m') <==> Conserved(m)) && (forall q: nat :: Zoned(m', q) <==> Zoned(m, q))
      && (BackedRun(m, p, n) ==> BackedRun(m', p, n)) && (ZonedRun(m, p, n) ==> ZonedRun(m', p, n))
  {
    var m' := m.(endOfStruct := end);
    KeepTable(m, m');
    KeepTable(m', m);
    forall l | p <= l < p + n
      ensures Backed(m, l) ==> Backed(m', l)
      ensures Zoned(m, l) ==> Zoned(m', l)
    {
    }
  }

  /** Takes page i out of its zone for the kernel itself, as the start-up code does. */
  function Reserve(m: Memory, i: nat, z: nat, flags: set<Flag>): Memory
    requires Described(m, i, z)
  {
    PageInit(m.(used := m.used[i := true],
                zones := m.zones[z := m.zones[z].(freeCount := m.zones[z].freeCount - 1,
                                                  usingCount := m.zones[z].usingCount + 1)]), i, z, flags)
  }

  /** What the start-up code marks its pages with. */
  const BOOT_FLAGS := {Mapped, KernelInit, Flag.Kernel}

  /** Reserves the n pages from p on, one after the other. */
  function ReserveRun(m: Memory, p: nat, n: nat, flags: set<Flag>): Memory
    requires BackedRun(m, p, n)
    decreases n, p
  {
    if n == 0 then m
    else
      assert Backed(m, p);
      BackedAfterReserve(m, p, n, flags);
      ReserveRun(Reserve(m, p, m.pages[p].zone.value, flags), p + 1, n - 1, flags)
  }

  lemma BackedAfterReserve(m: Memory, p: nat, n: nat, flags: set<Flag>)
    requires 0 < n && BackedRun(m, p, n) && Backed(m, p)
    ensures var m' := Reserve(m, p, m.pages[p].zone.value, flags);
      BackedRun(m', p + 1, n - 1) && SamePlan(m, m') && m'.used == m.used[p := true]
  {
    forall l | p + 1 <= l < p + n
      ensures Backed(Reserve(m, p, m.pages[p].zone.value, flags), l)
    {
      assert Backed(m, l);
    }
  }

  /** Reserving a page in use leaves the counter of its zone one behind. */
  lemma ReserveDrift(m: Memory, i: nat, z: nat, flags: set<Flag>)
    requires Table(m) && z < |m.zones| && InZone(m, z, i) && Described(m, i, z)
    ensures var m' := Reserve(m, i, z, flags);
      && Table(m')
      && (forall y :: 0 <= y < |m.zones| ==>
            && ZoneShape(m', y) && ZoneShape(m, y)
            && Drift(m', y) == Drift(m, y) - (if y == z && m.used[i] then 1 else 0)
            && m'.zones[y].freeCount + m'.zones[y].usingCount == m.zones[y].freeCount + m.zones[y].usingCount)
  {
    var m' := Reserve(m, i, z, flags);
    var taken := Take(m, z, i, 1, m.pages[i].attribute);
    TakeTable(m, z, i, 1, m.pages[i].attribute);
    assert taken.used == m.used[i := true] && taken.pages == m.pages;
    InitCleanKeep(taken, i, z, flags);
    forall y | 0 <= y < |m.zones|
      ensures ZoneShape(m', y) && ZoneShape(m, y) && Drift(m', y) == Drift(m, y) - (if y == z && m.used[i] then 1 else 0)
    {
      assert ZoneShape(m, y) && ZoneShape(m', y);
      if y == z {
        CountPut(m.used, i, true, Lo(m.zones[z]), Hi(m.zones[z]));
      } else {
        if InZone(m, y, i) {
          ZonesDisjoint(m, y, z, i);
        }
        CountSame(m.used, m'.used, Lo(m.zones[y]), Hi(m.zones[y]));
      }
    }
  }

  /** Reserving one page of a zone keeps the counters exact if and only if the page was free. */
  lemma ReserveConserves(m: Memory, i: nat, z: nat, flags: set<Flag>)
    requires Table(m) && Conserved(m)
    requires z < |m.zones| && InZone(m, z, i) && Described(m, i, z)
    ensures Table(Reserve(m, i, z, flags)) && (Conserved(Reserve(m, i, z, flags)) <==> !m.used[i])
  {
    ReserveDrift(m, i, z, flags);
    var m' := Reserve(m, i, z, flags);
    forall y | 0 <= y < |m.zones|
      ensures ZoneExact(m', y) <==> !(y == z && m.used[i])
    {
      assert ZoneShape(m, y) && ZoneExact(m, y) && ZoneShape(m', y);
    }
    assert ZoneExact(m', z) <==> !m.used[i];
  }

  /** No counter is ahead of its bits, and free plus used pages make up each zone. */
  ghost predicate NeverAhead(m: Memory)
    requires Table(m)
  {
    forall y :: 0 <= y < |m.zones| ==> ZoneBehind(m, y)
  }

  predicate ZoneBehind(m: Memory, z: nat)
    requires z < |m.zones| && ZoneShape(m, z)
  {
    Drift(m, z) <= 0 && m.zones[z].freeCount + m.zones[z].usingCount == m.zones[z].pagesLength
  }

  lemma ConservedIsBehind(m: Memory)
    requires Table(m) && Conserved(m)
    ensures NeverAhead(m)
  {
    forall y | 0 <= y < |m.zones|
      ensures ZoneBehind(m, y)
    {
      assert ZoneShape(m, y) && ZoneExact(m, y);
    }
  }

  /** m' is m with the pages lo up to hi taken out: same layout, those bits set, no other changed. */
  ghost predicate Reserved(m: Memory, m': Memory, lo: nat, hi: nat) {
    && SamePlan(m, m') && |m.used| == |m'.used|
    && forall p: nat :: p < |m.used| ==> m'.used[p] == (m.used[p] || lo <= p < hi)
  }

  lemma ReserveStepConserves(m: Memory, p: nat, flags: set<Flag>)
    requires Table(m) && NeverAhead(m) && Zoned(m, p) && Backed(m, p)
    ensures var m' := Reserve(m, p, m.pages[p].zone.value, flags);
      Table(m') && NeverAhead(m') && (Conserved(m') <==> Conserved(m) && !m.used[p])
  {
    var z := m.pages[p].zone.value;
    var m' := Reserve(m, p, z, flags);
    ReserveDrift(m, p, z, flags);
    forall y | 0 <= y < |m.zones|
      ensures ZoneBehind(m', y)
      ensures ZoneExact(m', y) <==> ZoneExact(m, y) && !(y == z && m.used[p])
    {
      assert ZoneShape(m, y) && ZoneBehind(m, y);
    }
    assert ZoneExact(m', z) <==> ZoneExact(m, z) && !m.used[p];
  }

  predicate RunClear(used: seq<bool>, p: nat, n: nat) {
    forall l :: p <= l < p + n && l < |used| ==> !used[l]
  }

  lemma RunClearStep(used: seq<bool>, p: nat, n: nat)
    requires 0 < n && p < |used|
    ensures RunClear(used, p, n) <==> !used[p] && RunClear(used[p := true], p + 1, n - 1)
  {
    var rest := used[p := true];
    assert forall l :: p + 1 <= l < |used| ==> used[l] == rest[l];
  }

  /** Reserving a run keeps the counters exact if and only if every page of it was free: a page that
      was already in use leaves its zone's counter behind its bits for good. */
  lemma {:induction false} ReserveRunConserves(m: Memory, p: nat, n: nat, flags: set<Flag>)
    requires Table(m) && NeverAhead(m) && BackedRun(m, p, n) && ZonedRun(m, p, n)
    ensures var m' := ReserveRun(m, p, n, flags);
      && Table(m') && NeverAhead(m') && Reserved(m, m', p, p + n)
      && (Conserved(m') <==> Conserved(m) && RunClear(m.used, p, n))
    decreases n
  {
    hide Table, Conserved, NeverAhead, RunClear, Reserved, CountClear, ReserveRun;
    if n > 0 {
      assert Zoned(m, p) && Backed(m, p);
      var m1 := Reserve(m, p, m.pages[p].zone.value, flags);
      ReserveStepConserves(m, p, flags);
      ReserveNext(m, p, n, flags);
      hide *;
      ReserveRunConserves(m1, p + 1, n - 1, flags);
      RunClearStep(m.used, p, n);
      ReservedStep(m, m1, ReserveRun(m1, p + 1, n - 1, flags), p, p + n);
    } else {
      ReserveNone(m, p, flags);
    }
  }

  lemma ReserveNone(m: Memory, p: nat, flags: set<Flag>)
    requires BackedRun(m, p, 0)
    ensures ReserveRun(m, p, 0, flags) == m && Reserved(m, m, p, p) && RunClear(m.used, p, 0)
  {
    SamePlanTrans(m, m, m);
  }

  lemma ReservedStep(m: Memory, m1: Memory, m2: Memory, lo: nat, hi: nat)
    requires SamePlan(m, m1) && lo < |m.used| && lo < hi && m1.used == m.used[lo := true] && Reserved(m1, m2, lo + 1, hi)
    ensures Reserved(m, m2, lo, hi)
  {
    SamePlanTrans(m, m1, m2);
  }

  /** After the first page of a run the rest of it can be reserved. */
  lemma ReserveNext(m: Memory, p: nat, n: nat, flags: set<Flag>)
    requires Table(m) && 0 < n && BackedRun(m, p, n) && ZonedRun(m, p, n) && Zoned(m, p) && Backed(m, p)
    ensures var m' := Reserve(m, p, m.pages[p].zone.value, flags);
      && BackedRun(m', p + 1, n - 1) && ZonedRun(m', p + 1, n - 1)
      && ReserveRun(m, p, n, flags) == ReserveRun(m', p + 1, n - 1, flags)
  {
    BackedAfterReserve(m, p, n, flags);
    var m' := Reserve(m, p, m.pages[p].zone.value, flags);
    forall l | p + 1 <= l < p + n
      ensures Zoned(m', l)
    {
      assert Zoned(m, l);
      SamePlanZoned(m, m', l);
    }
  }

  lemma SamePlanTrans(a: Memory, b: Memory, c: Memory)
    ensures SamePlan(a, b) && SamePlan(b, c) ==> SamePlan(a, c)
    ensures SamePlan(a, a)
  {
  }

  /** Reference counting touches neither the bitmap nor the page counters. */
  lemma InitCleanKeep(m: Memory, i: nat, z: nat, flags: set<Flag>)
    requires Table(m) && Described(m, i, z)
    ensures var a, b := PageInit(m, i, z, flags), PageClean(m, i, z);
      && Table(a) && Table(b)
      && (Conserved(m) ==> Conserved(a) && Conserved(b))
  {
    KeepTable(m, PageInit(m, i, z, flags));
    KeepTable(m, PageClean(m, i, z));
  }

  /** Two memories that agree on the bitmap, on the zones up to their link counts and on what the
      descriptors say about place agree on every invariant. */
  lemma KeepTable(m: Memory, m': Memory)
    requires Table(m)
    requires m'.used == m.used && m'.dma == m.dma && m'.normal == m.normal
    requires |m'.zones| == |m.zones|
    requires forall z :: 0 <= z < |m.zones| ==> m'.zones[z] == m.zones[z].(link := m'.zones[z].link)
    requires |m'.pages| == |m.pages|
    requires forall i :: 0 <= i < |m.pages| ==>
      m'.pages[i].zone == m.pages[i].zone && m'.pages[i].phys == m.pages[i].phys
    ensures Table(m')
    ensures Conserved(m) <==> Conserved(m')
  {
    forall z | 0 <= z < |m.zones|
      ensures ZoneShape(m', z) && (ZoneExact(m', z) <==> ZoneExact(m, z))
    {
      assert ZoneShape(m, z);
    }
    forall z, i | 0 <= z < |m.zones| && 0 <= i && InZone(m', z, i)
      ensures Described(m', i, z)
    {
      assert InZone(m, z, i);
      assert Described(m, i, z);
    }
    forall i | 0 <= i < |m.used|
      ensures InSomeZone(m', i) == InSomeZone(m, i)
    {
      SameZones(m, m', i);
    }
  }

  // ---------------------------------------------------------------- counting

  lemma {:induction false} CountSame(a: seq<bool>, b: seq<bool>, lo: nat, hi: nat)
    requires hi <= |a| && hi <= |b|
    requires forall i :: lo <= i < hi ==> a[i] == b[i]
    ensures CountClear(a, lo, hi) == CountClear(b, lo, hi)
    decreases hi
  {
    if lo < hi {
      CountSame(a, b, lo, hi - 1);
    }
  }

  /** Setting one bit moves the count by what that bit was. */
  lemma {:induction false} CountPut(a: seq<bool>, i: nat, v: bool, lo: nat, hi: nat)
    requires lo <= i < hi <= |a|
    ensures CountClear(a[i := v], lo, hi)
         == CountClear(a, lo, hi) - (if a[i] then 0 else 1) + (if v then 0 else 1)
    decreases hi
  {
    if i == hi - 1 {
      CountSame(a[i := v], a, lo, hi - 1);
    } else {
      CountPut(a, i, v, lo, hi - 1);
    }
  }

  /** Filling a free run removes from the count of a range exactly the part of the run inside it. */
  lemma {:induction false} CountFill(a: seq<bool>, b: seq<bool>, p: nat, n: nat, lo: nat, hi: nat)
    requires hi <= |a| == |b| && lo <= p && RunFree(a, p, n)
    requires forall i :: 0 <= i < |a| ==> b[i] == (a[i] || p <= i < p + n)
    ensures CountClear(b, lo, hi)
         == CountClear(a, lo, hi) - (if hi <= p then 0 else if hi <= p + n then hi - p else n)
    decreases hi
  {
    if lo < hi {
      CountFill(a, b, p, n, lo, hi - 1);
    }
  }

  lemma {:induction false} CountPositive(a: seq<bool>, lo: nat, hi: nat) returns (i: nat)
    requires hi <= |a| && CountClear(a, lo, hi) > 0
    ensures lo <= i < hi && !a[i]
    decreases hi
  {
    if a[hi - 1] {
      i := CountPositive(a, lo, hi - 1);
    } else {
      i := hi - 1;
    }
  }

  // ---------------------------------------------------------------- properties

  /** First fit is the least start of a free run, and fails only when there is none. */
  lemma {:induction false} FirstRunIsLeast(used: seq<bool>, p: nat, limit: nat, n: nat)
    ensures match FirstRun(used, p, limit, n)
      case Some(r) => p <= r < limit && RunFree(used, r, n)
                      && forall q :: p <= q < r ==> !RunFree(used, q, n)
      case None => forall q :: p <= q < limit ==> !RunFree(used, q, n)
    decreases limit - p
  {
    if p < limit && !RunFree(used, p, n) {
      FirstRunIsLeast(used, p + 1, limit, n);
    }
  }

  lemma {:induction false} FirstZoneIsFirst(zones: seq<Zone>, i: nat, last: int, n: nat)
    ensures match FirstZone(zones, i, last, n)
      case Some(z) => i <= z < |zones| && z <= last && zones[z].freeCount >= n
                      && forall y :: i <= y < z ==> zones[y].freeCount < n
      case None => forall y :: i <= y <= last && y < |zones| ==> zones[y].freeCount < n
    decreases |zones| - i
  {
    if i < |zones| && i <= last && zones[i].freeCount < n {
      FirstZoneIsFirst(zones, i + 1, last, n);
    }
  }

  /** What a successful request means: zone z was the first of the selected ones with a large
      enough counter and p is the lowest start, from the start of the zone on, with n clear bits. */
  ghost predicate FirstFit(m: Memory, sel: ZoneSelect, n: nat, z: nat, p: nat) {
    var (first, last, _) := Selected(m, sel);
    && first <= z <= last && z < |m.zones| && m.zones[z].freeCount >= n
    && (forall y :: first <= y < z ==> m.zones[y].freeCount < n)
    && Lo(m.zones[z]) <= p < ScanEnd(m.zones[z]) && RunFree(m.used, p, n)
    && forall q :: Lo(m.zones[z]) <= q < p ==> !RunFree(m.used, q, n)
  }

  lemma AllocIsFirstFit(m: Memory, sel: ZoneSelect, n: int) returns (z: nat)
    ensures var (m', r) := AllocPages(m, sel, n);
      match r
      case Some(p) => 0 < n < BITS && FirstFit(m, sel, n, z, p)
                      && m' == Take(m, z, p, n, Selected(m, sel).2)
      case None => m' == m && (0 < n < BITS ==>
          forall y, q :: !FirstFit(m, sel, n, y, q))
  {
    z := 0;
    if 0 < n < BITS {
      var (first, last, _) := Selected(m, sel);
      FirstZoneIsFirst(m.zones, first, last, n);
      var fz := FirstZone(m.zones, first, last, n);
      if fz.Some? {
        z := fz.value;
        FirstRunIsLeast(m.used, Lo(m.zones[z]), ScanEnd(m.zones[z]), n);
      }
    }
  }

  /** Zone z may serve the selector, and no zone before it that may has a large enough counter. */
  predicate FirstChoice(m: Memory, sel: ZoneSelect, n: nat, z: nat) {
    && z < |m.zones| && m.zones[z].freeCount >= n
    && match sel
       case ZoneDma => z <= m.dma && forall y :: 0 <= y < z ==> m.zones[y].freeCount < n
       case ZoneNormal => m.dma <= z <= m.normal && forall y :: m.dma <= y < z ==> m.zones[y].freeCount < n
       case ZoneUnmapped => m.unmapped <= z && forall y :: m.unmapped <= y < z ==> m.zones[y].freeCount < n
       case OtherZone => false
  }

  /** The whole effect of a request: with one to 63 pages it turns to the first zone that the selector
      allows and whose counter suffices, takes there the lowest run that the scan meets, sets the bits and
      the attribute of exactly that run and moves its length between the two counters of that zone; in
      every other case nothing changes. */
  lemma AllocMeans(m: Memory, sel: ZoneSelect, n: int) returns (z: nat)
    ensures var (m', r) := AllocPages(m, sel, n);
      match r
      case None =>
        m' == m && (1 <= n <= 63 ==> forall y: nat :: FirstChoice(m, sel, n, y) ==>
          forall q :: Lo(m.zones[y]) <= q < 64 * (m.zones[y].endAddr / 0x20_0000 / 64 + 1) ==> !RunFree(m.used, q, n))
      case Some(p) =>
        && 1 <= n <= 63 && FirstChoice(m, sel, n, z)
        && Lo(m.zones[z]) <= p < 64 * (m.zones[z].endAddr / 0x20_0000 / 64 + 1) && RunFree(m.used, p, n)
        && (forall q :: Lo(m.zones[z]) <= q < p ==> !RunFree(m.used, q, n))
        && |m'.used| == |m.used| && (forall i :: 0 <= i < |m.used| ==> m'.used[i] == (m.used[i] || p <= i < p + n))
        && |m'.zones| == |m.zones| && (forall y :: 0 <= y < |m.zones| && y != z ==> m'.zones[y] == m.zones[y])
        && m'.zones[z] == m.zones[z].(freeCount := m.zones[z].freeCount - n, usingCount := m.zones[z].usingCount + n)
        && |m'.pages| == |m.pages|
        && (forall i :: 0 <= i < |m.pages| && !(p <= i < p + n) ==> m'.pages[i] == m.pages[i])
        && (forall i :: p <= i < p + n && i < |m.pages| ==>
              m'.pages[i] == m.pages[i].(attribute := if sel.ZoneUnmapped? then {} else {Mapped}))
        && m'.dma == m.dma && m'.normal == m.normal && m'.unmapped == m.unmapped && m'.endOfStruct == m.endOfStruct
  {
    z := AllocIsFirstFit(m, sel, n);
    var (m', r) := AllocPages(m, sel, n);
    if r.None? && 0 < n < BITS {
      forall y: nat | FirstChoice(m, sel, n, y)
        ensures forall q :: Lo(m.zones[y]) <= q < ScanEnd(m.zones[y]) ==> !RunFree(m.used, q, n)
      {
        ChosenIsFirst(m, sel, n, y);
        FirstRunIsLeast(m.used, Lo(m.zones[y]), ScanEnd(m.zones[y]), n);
      }
    }
  }

  lemma ChosenIsFirst(m: Memory, sel: ZoneSelect, n: nat, z: nat)
    requires FirstChoice(m, sel, n, z)
    ensures var (first, last, _) := Selected(m, sel); FirstZone(m.zones, first, last, n) == Some(z)
  {
    var (first, last, _) := Selected(m, sel);
    FirstZoneIsFirst(m.zones, first, last, n);
  }

  lemma ZonesDisjoint(m: Memory, y: nat, z: nat, i: nat)
    requires Table(m) && y < |m.zones| && z < |m.zones|
    requires InZone(m, y, i) && InZone(m, z, i)
    ensures y == z
  {
    assert Described(m, i, y);
    assert Described(m, i, z);
  }

  /** Taking a free run keeps the tables, and keeps the counters exact if and only if the run lies
      inside the zone that is charged for it. */
  lemma TakeConserves(m: Memory, z: nat, p: nat, n: nat, attr: set<Flag>)
    requires Table(m) && Conserved(m)
    requires z < |m.zones| && Lo(m.zones[z]) <= p && 0 < n && RunFree(m.used, p, n)
    ensures Table(Take(m, z, p, n, attr))
    ensures Conserved(Take(m, z, p, n, attr)) <==> p + n <= Hi(m.zones[z])
  {
    var m' := Take(m, z, p, n, attr);
    TakeTable(m, z, p, n, attr);
    assert ZoneShape(m, z) && ZoneShape(m', z);
    CountFill(m.used, m'.used, p, n, Lo(m.zones[z]), Hi(m.zones[z]));
    if p + n <= Hi(m.zones[z]) {
      forall y | 0 <= y < |m.zones| && y != z
        ensures ZoneExact(m', y)
      {
        assert ZoneExact(m, y);
        assert ZoneShape(m, y) && ZoneShape(m', y);
        forall i | Lo(m.zones[y]) <= i < Hi(m.zones[y])
          ensures m'.used[i] == m.used[i]
        {
          if p <= i < p + n {
            ZonesDisjoint(m, y, z, i);
          }
        }
        CountSame(m.used, m'.used, Lo(m.zones[y]), Hi(m.zones[y]));
      }
      assert ZoneExact(m, z);
      assert ZoneExact(m', z);
    } else {
      assert ZoneExact(m, z);
      assert !ZoneExact(m', z);
    }
  }

  lemma SameZones(m: Memory, m': Memory, i: nat)
    requires |m.zones| == |m'.zones|
    requires forall z :: 0 <= z < |m.zones| ==> InZone(m, z, i) == InZone(m', z, i)
    ensures InSomeZone(m, i) == InSomeZone(m', i)
  {
    if InSomeZone(m, i) {
      var z: nat :| z < |m.zones| && InZone(m, z, i);
      assert InZone(m', z, i);
    }
  }

  lemma TakeTable(m: Memory, z: nat, p: nat, n: nat, attr: set<Flag>)
    requires Table(m) && z < |m.zones|
    ensures Table(Take(m, z, p, n, attr))
  {
    var m' := Take(m, z, p, n, attr);
    forall y | 0 <= y < |m.zones|
      ensures ZoneShape(m', y)
    {
      assert ZoneShape(m, y);
    }
    forall y, i | 0 <= y < |m.zones| && 0 <= i && InZone(m', y, i)
      ensures Described(m', i, y)
    {
      assert InZone(m, y, i);
      assert Described(m, i, y);
    }
    forall i | 0 <= i < |m'.used|
      ensures InSomeZone(m', i) == InSomeZone(m, i)
    {
      SameZones(m, m', i);
    }
  }

  /** Zone z has n free pages in a row. */
  ghost predicate HasRun(m: Memory, z: nat, n: nat)
    requires z < |m.zones|
  {
    exists p: nat :: Lo(m.zones[z]) <= p && p + n <= Hi(m.zones[z]) && RunFree(m.used, p, n)
  }

  /** The scan of zone z, which looks beyond the end of the zone, meets no run of n clear bits. */
  ghost predicate MeetsNoRun(m: Memory, z: nat, n: nat)
    requires z < |m.zones|
  {
    forall p: nat :: Lo(m.zones[z]) <= p < ScanEnd(m.zones[z]) ==> !RunFree(m.used, p, n)
  }

  /** The zone alloc_pages turns to has room for the request in itself, or the request fails. */
  ghost predicate Confined(m: Memory, sel: ZoneSelect, n: int) {
    var (first, last, _) := Selected(m, sel);
    0 < n < BITS ==>
      match FirstZone(m.zones, first, last, n)
      case None => true
      case Some(z) => HasRun(m, z, n) || MeetsNoRun(m, z, n)
  }

  /** A request keeps the counters exact if and only if it is confined to the zone it turns to; then a
      successful one stays inside that zone. */
  lemma AllocConserves(m: Memory, sel: ZoneSelect, n: int) returns (z: nat)
    requires Table(m) && Conserved(m)
    ensures var (m', r) := AllocPages(m, sel, n);
      && Table(m') && (Conserved(m') <==> Confined(m, sel, n))
      && (r.Some? ==>
            && z < |m.zones| && FirstFit(m, sel, n, z, r.value) && m' == Take(m, z, r.value, n, Selected(m, sel).2)
            && (Confined(m, sel, n) <==> r.value + n <= Hi(m.zones[z])))
  {
    z := AllocIsFirstFit(m, sel, n);
    var (m', r) := AllocPages(m, sel, n);
    if r.Some? {
      TakeConserves(m, z, r.value, n, Selected(m, sel).2);
      FoundConfined(m, sel, n, z, r.value);
    } else if 0 < n < BITS {
      var (first, last, _) := Selected(m, sel);
      var fz := FirstZone(m.zones, first, last, n);
      if fz.Some? {
        FirstRunIsLeast(m.used, Lo(m.zones[fz.value]), ScanEnd(m.zones[fz.value]), n);
        assert MeetsNoRun(m, fz.value, n);
      }
    }
  }

  lemma FoundConfined(m: Memory, sel: ZoneSelect, n: nat, z: nat, p: nat)
    requires Table(m) && 0 < n < BITS && FirstFit(m, sel, n, z, p)
    ensures Confined(m, sel, n) <==> p + n <= Hi(m.zones[z])
  {
    var (first, last, _) := Selected(m, sel);
    FirstZoneIsFirst(m.zones, first, last, n);
    assert ZoneShape(m, z) && !MeetsNoRun(m, z, n);
    if p + n <= Hi(m.zones[z]) {
      assert HasRun(m, z, n);
    }
  }

  /** One page at a time nothing more is needed: a zone whose counter allows it has a free page. */
  lemma SinglePageConfined(m: Memory, sel: ZoneSelect)
    requires Table(m) && Conserved(m)
    ensures Confined(m, sel, 1)
  {
    var (first, last, _) := Selected(m, sel);
    var fz := FirstZone(m.zones, first, last, 1);
    if fz.Some? {
      var z := fz.value;
      assert ZoneShape(m, z) && ZoneExact(m, z);
      var i := CountPositive(m.used, Lo(m.zones[z]), Hi(m.zones[z]));
      assert RunFree(m.used, i, 1);
    }
  }

  /** Nor where every bit the scan can see beyond the end of the zone is set. */
  lemma GuardedConfined(m: Memory, sel: ZoneSelect, n: int)
    requires Table(m)
    requires forall z, i :: 0 <= z < |m.zones| && Hi(m.zones[z]) <= i < ScanEnd(m.zones[z]) + BITS && i < |m.used| ==> m.used[i]
    ensures Confined(m, sel, n)
  {
    var (first, last, _) := Selected(m, sel);
    if 0 < n < BITS && FirstZone(m.zones, first, last, n).Some? {
      var z := FirstZone(m.zones, first, last, n).value;
      if p: nat :| Lo(m.zones[z]) <= p < ScanEnd(m.zones[z]) && RunFree(m.used, p, n) {
        assert ZoneShape(m, z) && !m.used[p + n - 1];
        assert HasRun(m, z, n);
      }
    }
  }

  /** A single page is refused only when every selected zone is exhausted. */
  lemma SinglePageRefusal(m: Memory, sel: ZoneSelect)
    requires Table(m) && Conserved(m)
    ensures AllocPages(m, sel, 1).1.None?
       <==> forall y :: Selected(m, sel).0 <= y <= Selected(m, sel).1 && y < |m.zones| ==> m.zones[y].freeCount < 1
  {
    var (first, last, _) := Selected(m, sel);
    FirstZoneIsFirst(m.zones, first, last, 1);
    var fz := FirstZone(m.zones, first, last, 1);
    if fz.Some? {
      assert ZoneShape(m, fz.value) && ZoneExact(m, fz.value);
      var z := m.zones[fz.value];
      var i := CountPositive(m.used, Lo(z), Hi(z));
      assert RunFree(m.used, i, 1);
      FirstRunIsLeast(m.used, Lo(z), ScanEnd(z), 1);
    }
  }

  /** How far the free counter of a zone is ahead of its bits. */
  function Drift(m: Memory, z: nat): int
    requires z < |m.zones| && ZoneShape(m, z)
  {
    m.zones[z].freeCount - CountClear(m.used, Lo(m.zones[z]), Hi(m.zones[z]))
  }

  lemma FreeOneDrift(m: Memory, i: nat, z: nat)
    requires Table(m) && z < |m.zones| && InZone(m, z, i) && Described(m, i, z)
    ensures var m' := FreeOne(m, i, z);
      && Table(m')
      && (forall y :: 0 <= y < |m.zones| ==>
            && ZoneShape(m', y) && ZoneShape(m, y)
            && Drift(m', y) == Drift(m, y) + (if y == z && !m.used[i] then 1 else 0)
            && m'.zones[y].freeCount + m'.zones[y].usingCount == m.zones[y].freeCount + m.zones[y].usingCount)
  {
    var m' := FreeOne(m, i, z);
    forall y | 0 <= y < |m.zones|
      ensures ZoneShape(m', y)
    {
      assert ZoneShape(m, y);
    }
    forall y, l | 0 <= y < |m.zones| && 0 <= l && InZone(m', y, l)
      ensures Described(m', l, y)
    {
      assert InZone(m, y, l);
      assert Described(m, l, y);
    }
    assert InSomeZone(m, i);
    forall l | 0 <= l < |m'.used|
      ensures InSomeZone(m', l) == InSomeZone(m, l)
    {
      SameZones(m, m', l);
    }
    forall y | 0 <= y < |m.zones|
      ensures Drift(m', y) == Drift(m, y) + (if y == z && !m.used[i] then 1 else 0)
    {
      assert ZoneShape(m, y) && ZoneShape(m', y);
      if y == z {
        CountPut(m.used, i, false, Lo(m.zones[z]), Hi(m.zones[z]));
      } else {
        if InZone(m, y, i) {
          ZonesDisjoint(m, y, z, i);
        }
        CountSame(m.used, m'.used, Lo(m.zones[y]), Hi(m.zones[y]));
      }
    }
  }

  /** Page i lies in the zone its descriptor names. */
  ghost predicate Zoned(m: Memory, i: nat) {
    && Backed(m, i)
    && InZone(m, m.pages[i].zone.value, i)
  }

  /** No counter is behind its bits, and free plus used pages make up each zone. */
  ghost predicate NeverBehind(m: Memory)
    requires Table(m)
  {
    forall y :: 0 <= y < |m.zones| ==> ZoneAhead(m, y)
  }

  predicate ZoneAhead(m: Memory, z: nat)
    requires z < |m.zones| && ZoneShape(m, z)
  {
    Drift(m, z) >= 0 && m.zones[z].freeCount + m.zones[z].usingCount == m.zones[z].pagesLength
  }

  lemma FreeOneConserves(m: Memory, i: nat, z: nat)
    requires Table(m) && z < |m.zones| && InZone(m, z, i) && Described(m, i, z)
    requires NeverBehind(m)
    ensures Table(FreeOne(m, i, z)) && NeverBehind(FreeOne(m, i, z))
    ensures Conserved(FreeOne(m, i, z)) <==> Conserved(m) && m.used[i]
  {
    FreeOneDrift(m, i, z);
    var m' := FreeOne(m, i, z);
    forall y | 0 <= y < |m.zones|
      ensures ZoneAhead(m', y)
      ensures ZoneExact(m', y) <==> ZoneExact(m, y) && !(y == z && !m.used[i])
    {
      assert ZoneShape(m, y) && ZoneAhead(m, y);
    }
    assert ZoneExact(m', z) <==> ZoneExact(m, z) && m.used[i];
  }

  predicate RunUsed(used: seq<bool>, p: nat, n: nat) {
    forall l :: p <= l < p + n && l < |used| ==> used[l]
  }

  ghost predicate ZonedRun(m: Memory, p: nat, n: nat) {
    forall l :: p <= l < p + n ==> Zoned(m, l)
  }

  lemma ZonedAfterFree(m: Memory, p: nat, n: nat)
    requires 0 < n && ZonedRun(m, p, n) && Zoned(m, p)
    ensures ZonedRun(FreeOne(m, p, m.pages[p].zone.value), p + 1, n - 1)
  {
    forall l | p + 1 <= l < p + n
      ensures Zoned(FreeOne(m, p, m.pages[p].zone.value), l)
    {
      assert Zoned(m, l);
    }
  }

  lemma RunUsedStep(used: seq<bool>, p: nat, n: nat)
    requires 0 < n && p < |used|
    ensures RunUsed(used, p, n) <==> used[p] && RunUsed(used[p := false], p + 1, n - 1)
  {
    var rest := used[p := false];
    assert forall l :: p + 1 <= l < |used| ==> used[l] == rest[l];
  }

  /** Freeing keeps the counters exact if and only if every page of the run was in use: a page that
      was already free leaves its zone's counter ahead of its bits for good. */
  lemma {:induction false} FreeConserves(m: Memory, p: nat, n: nat)
    requires Table(m) && NeverBehind(m) && BackedRun(m, p, n) && ZonedRun(m, p, n)
    ensures Table(FreeRun(m, p, n)) && NeverBehind(FreeRun(m, p, n))
    ensures Conserved(FreeRun(m, p, n)) <==> Conserved(m) && RunUsed(m.used, p, n)
    decreases n
  {
    if n > 0 {
      assert Zoned(m, p);
      var z := m.pages[p].zone.value;
      FreeOneConserves(m, p, z);
      BackedAfterFree(m, p, n);
      ZonedAfterFree(m, p, n);
      RunUsedStep(m.used, p, n);
      FreeConserves(FreeOne(m, p, z), p + 1, n - 1);
    }
  }

  /** Freeing a run that lies in one zone clears exactly the bits of the run and moves exactly its
      length from the used to the free counter of that zone. */
  lemma {:induction false} FreeRunInZone(m: Memory, p: nat, n: nat, z: nat)
    requires z < |m.zones| && BackedRun(m, p, n)
    requires forall l :: p <= l < p + n ==> Described(m, l, z)
    ensures var m' := FreeRun(m, p, n);
      && |m'.used| == |m.used|
      && (forall i :: 0 <= i < |m.used| ==> m'.used[i] == (m.used[i] && !(p <= i < p + n)))
      && m'.zones == m.zones[z := m.zones[z].(freeCount := m.zones[z].freeCount + n,
                                              usingCount := m.zones[z].usingCount - n)]
    decreases n
  {
    if n > 0 {
      assert Described(m, p, z);
      var m1 := FreeOne(m, p, z);
      BackedAfterFree(m, p, n);
      forall l | p + 1 <= l < p + n
        ensures Described(m1, l, z)
      {
        assert Described(m, l, z);
      }
      FreeRunInZone(m1, p + 1, n - 1, z);
    }
  }

  /** The rest of what freeing does: the pages of the run lose their attributes and nothing else, every
      other page stays as it is, and a request of no page, of none at all or of more than 63 does nothing. */
  lemma FreeMeans(m: Memory, page: Option<nat>, n: int)
    requires page.Some? && 0 < n < BITS ==> BackedRun(m, page.value, n)
    ensures var m' := FreePages(m, page, n);
      if page.None? || n <= 0 || n >= 64 then m' == m
      else
        && |m'.pages| == |m.pages|
        && (forall i :: 0 <= i < |m.pages| ==>
              m'.pages[i] == if page.value <= i < page.value + n then m.pages[i].(attribute := {}) else m.pages[i])
        && m'.dma == m.dma && m'.normal == m.normal && m'.unmapped == m.unmapped && m'.endOfStruct == m.endOfStruct
  {
    if page.Some? && 0 < n < BITS {
      FreeRunPages(m, page.value, n);
    }
  }

  lemma {:induction false} FreeRunPages(m: Memory, p: nat, n: nat)
    requires BackedRun(m, p, n)
    ensures var m' := FreeRun(m, p, n);
      && |m'.pages| == |m.pages| && |m'.zones| == |m.zones|
      && (forall i :: 0 <= i < |m.pages| ==> m'.pages[i] == if p <= i < p + n then m.pages[i].(attribute := {}) else m.pages[i])
      && m'.dma == m.dma && m'.normal == m.normal && m'.unmapped == m.unmapped && m'.endOfStruct == m.endOfStruct
    decreases n
  {
    if n > 0 {
      assert Backed(m, p);
      BackedAfterFree(m, p, n);
      FreeRunPages(FreeOne(m, p, m.pages[p].zone.value), p + 1, n - 1);
    }
  }

  predicate SameDrift(m: Memory, m': Memory, y: nat) {
    && y < |m.zones| && y < |m'.zones| && ZoneShape(m, y) && ZoneShape(m', y) && Drift(m', y) == Drift(m, y)
  }

  /** Freeing pages in use moves no counter away from its bits. */
  lemma {:induction false} FreeRunDrift(m: Memory, p: nat, n: nat)
    requires Table(m) && BackedRun(m, p, n) && ZonedRun(m, p, n) && RunUsed(m.used, p, n)
    ensures forall y: nat :: y < |m.zones| ==> SameDrift(m, FreeRun(m, p, n), y)
    decreases n
  {
    if n > 0 {
      var m1 := FreeFirst(m, p, n);
      hide *;
      FreeRunDrift(m1, p + 1, n - 1);
      var m2 := FreeRun(m1, p + 1, n - 1);
      forall y: nat | y < |m.zones|
        ensures SameDrift(m, m2, y)
      {
        DriftChain(m, m1, m2, y);
      }
    } else {
      assert forall y: nat :: y < |m.zones| ==> ZoneShape(m, y);
    }
  }

  /** The first step of freeing a run of pages in use. */
  lemma FreeFirst(m: Memory, p: nat, n: nat) returns (m1: Memory)
    requires Table(m) && 0 < n && BackedRun(m, p, n) && ZonedRun(m, p, n) && RunUsed(m.used, p, n)
    ensures Table(m1) && BackedRun(m1, p + 1, n - 1) && ZonedRun(m1, p + 1, n - 1) && RunUsed(m1.used, p + 1, n - 1)
    ensures FreeRun(m, p, n) == FreeRun(m1, p + 1, n - 1)
    ensures |m1.zones| == |m.zones| && forall y: nat :: y < |m.zones| ==> SameDrift(m, m1, y)
  {
    assert Zoned(m, p) && Backed(m, p);
    var z := m.pages[p].zone.value;
    m1 := FreeOne(m, p, z);
    FreeOneDrift(m, p, z);
    BackedAfterFree(m, p, n);
    ZonedAfterFree(m, p, n);
    RunUsedStep(m.used, p, n);
    hide CountClear, FreeOne, Table, Drift, ZoneShape;
    assert m.used[p];
  }

  lemma DriftChain(a: Memory, b: Memory, c: Memory, y: nat)
    requires SameDrift(a, b, y) && SameDrift(b, c, y)
    ensures SameDrift(a, c, y)
  {
  }

  /** Freeing clears exactly the bits of the run. */
  lemma {:induction false} FreeRunBits(m: Memory, p: nat, n: nat)
    requires BackedRun(m, p, n)
    ensures var m' := FreeRun(m, p, n);
      |m'.used| == |m.used| && forall i :: 0 <= i < |m.used| ==> m'.used[i] == (m.used[i] && !(p <= i < p + n))
    decreases n
  {
    if n > 0 {
      assert Backed(m, p);
      BackedAfterFree(m, p, n);
      FreeRunBits(FreeOne(m, p, m.pages[p].zone.value), p + 1, n - 1);
    }
  }

  /** alloc_pages followed by free_pages of the same run gives the bitmap back, and all counters if and
      only if the request was confined to its zone. */
  lemma AllocThenFree(m: Memory, sel: ZoneSelect, n: int)
    requires Table(m) && Conserved(m) && AllocPages(m, sel, n).1.Some?
    ensures var (m', r) := AllocPages(m, sel, n);
      && BackedRun(m', r.value, n) && FreePages(m', r, n).used == m.used
      && (FreePages(m', r, n).zones == m.zones <==> Confined(m, sel, n))
  {
    var z := AllocConserves(m, sel, n);
    var (m', r) := AllocPages(m, sel, n);
    var p := r.value;
    hide Table, Conserved, Confined, FirstFit, AllocPages, ZonedRun, BackedRun;
    ClearRunZoned(m, z, p, n, Selected(m, sel).2);
    FreeRunBits(m', p, n);
    assert FreePages(m', r, n).used == m.used;
    if p + n <= Hi(m.zones[z]) {
      FreeInsideRestores(m, z, p, n, Selected(m, sel).2);
    } else {
      FreeOutsideDiffers(m, z, p, n, Selected(m, sel).2);
    }
  }

  /** A run of clear bits consists of pages of zones, also after it has been taken. */
  lemma ClearRunZoned(m: Memory, z: nat, p: nat, n: nat, attr: set<Flag>)
    requires Table(m) && z < |m.zones| && RunFree(m.used, p, n)
    ensures var m' := Take(m, z, p, n, attr);
      Table(m') && BackedRun(m', p, n) && ZonedRun(m', p, n) && RunUsed(m'.used, p, n)
  {
    var m' := Take(m, z, p, n, attr);
    TakeTable(m, z, p, n, attr);
    forall l | p <= l < p + n
      ensures Zoned(m', l) && Backed(m', l)
    {
      assert !m.used[l];
      var y: nat :| y < |m.zones| && InZone(m, y, l);
      assert InZone(m', y, l) && Described(m', l, y);
    }
  }

  lemma FreeInsideRestores(m: Memory, z: nat, p: nat, n: nat, attr: set<Flag>)
    requires Table(m) && z < |m.zones| && Lo(m.zones[z]) <= p && p + n <= Hi(m.zones[z])
    requires BackedRun(Take(m, z, p, n, attr), p, n)
    ensures FreeRun(Take(m, z, p, n, attr), p, n).zones == m.zones
  {
    var m' := Take(m, z, p, n, attr);
    TakeTable(m, z, p, n, attr);
    forall l | p <= l < p + n
      ensures Described(m', l, z)
    {
      assert InZone(m', z, l);
    }
    FreeRunInZone(m', p, n, z);
  }

  /** The zone that was charged for a page of another zone does not get it back. */
  lemma FreeOutsideDiffers(m: Memory, z: nat, p: nat, n: nat, attr: set<Flag>)
    requires Table(m) && Conserved(m) && z < |m.zones| && Lo(m.zones[z]) <= p && 0 < n && RunFree(m.used, p, n)
    requires Hi(m.zones[z]) < p + n && BackedRun(Take(m, z, p, n, attr), p, n)
    requires FreeRun(Take(m, z, p, n, attr), p, n).used == m.used
    ensures FreeRun(Take(m, z, p, n, attr), p, n).zones != m.zones
  {
    var m' := Take(m, z, p, n, attr);
    ClearRunZoned(m, z, p, n, attr);
    FreeRunDrift(m', p, n);
    assert SameDrift(m', FreeRun(m', p, n), z);
    assert ZoneShape(m, z) && ZoneExact(m, z) && ZoneShape(m', z);
    CountFill(m.used, m'.used, p, n, Lo(m.zones[z]), Hi(m.zones[z]));
  }

  // ---------------------------------------------------------------- runs

  datatype Request = Alloc(sel: ZoneSelect, n: int) | Free(page: Option<nat>, n: int)

  /** A request that names pages of zones. */
  ghost predicate Legal(m: Memory, r: Request) {
    r.Free? && r.page.Some? && 0 < r.n < BITS ==> BackedRun(m, r.page.value, r.n) && ZonedRun(m, r.page.value, r.n)
  }

  /** What callers owe for exact counters: a confined request, and only pages in use are freed. */
  ghost predicate Careful(m: Memory, r: Request) {
    match r
    case Alloc(sel, n) => Confined(m, sel, n)
    case Free(page, n) => page.Some? && 0 < n < BITS ==> RunUsed(m.used, page.value, n)
  }

  ghost function Served(m: Memory, r: Request): Memory
    requires Legal(m, r)
  {
    match r
    case Alloc(sel, n) => AllocPages(m, sel, n).0
    case Free(page, n) => FreePages(m, page, n)
  }

  ghost predicate CarefulRun(m: Memory, rs: seq<Request>)
    decreases |rs|
  {
    rs == [] || (Legal(m, rs[0]) && Careful(m, rs[0]) && CarefulRun(Served(m, rs[0]), rs[1..]))
  }

  ghost function After(m: Memory, rs: seq<Request>): Memory
    requires CarefulRun(m, rs)
    decreases |rs|
  {
    if rs == [] then m else After(Served(m, rs[0]), rs[1..])
  }

  /** One request keeps the counters exact if and only if it is careful. */
  lemma ServedConserves(m: Memory, r: Request)
    requires Table(m) && Conserved(m) && Legal(m, r)
    ensures Table(Served(m, r)) && (Conserved(Served(m, r)) <==> Careful(m, r))
  {
    match r
    case Alloc(sel, n) =>
      var z := AllocConserves(m, sel, n);
    case Free(None, _) =>
    case Free(Some(p), n) =>
      if 0 < n < BITS {
        forall y | 0 <= y < |m.zones|
          ensures ZoneAhead(m, y)
        {
          assert ZoneShape(m, y) && ZoneExact(m, y);
        }
        FreeConserves(m, p, n);
      }
  }

  /** Page conservation over every run of careful requests: in every zone the free counter is the
      number of clear bits, and free plus used pages make up the zone. */
  lemma {:induction false} RunConserves(m: Memory, rs: seq<Request>)
    requires Table(m) && Conserved(m) && CarefulRun(m, rs)
    ensures Table(After(m, rs)) && Conserved(After(m, rs))
    decreases |rs|
  {
    if rs != [] {
      ServedConserves(m, rs[0]);
      RunConserves(Served(m, rs[0]), rs[1..]);
    }
  }

  /** Two neighbouring zones of three and two pages; pages 0, 2, 3 and 4 are free. */
  function NeighbourZones(): Memory {
    Memory(seq(2 * BITS, i => i == 1 || i >= 5),
           [Zone(0, 3 * PAGE, 3, 1, 2, 0), Zone(3 * PAGE, 5 * PAGE, 2, 0, 2, 0)],
           seq(5, i requires 0 <= i < 5 => Page(Some(if i < 3 then 0 else 1), i * PAGE, {}, 0)),
           0, 0, 0, 0)
  }

  lemma NeighbourZonesTable()
    ensures Table(NeighbourZones())
  {
    var m := NeighbourZones();
    assert ZoneShape(m, 0) && ZoneShape(m, 1);
    forall i | 0 <= i < |m.used| && !InSomeZone(m, i)
      ensures m.used[i]
    {
      assert !InZone(m, 0, i) && !InZone(m, 1, i);
    }
  }

  lemma NeighbourZonesCounts()
    requires Table(NeighbourZones())
    ensures Conserved(NeighbourZones())
  {
    var m := NeighbourZones();
    assert ZoneShape(m, 0) && ZoneShape(m, 1);
    assert CountClear(m.used, 0, 1) == 1 && CountClear(m.used, 0, 2) == 1;
    assert CountClear(m.used, 3, 4) == 1;
    assert ZoneExact(m, 0) && ZoneExact(m, 1);
  }

  lemma NeighbourZonesRun()
    ensures FirstRun(NeighbourZones().used, 0, BITS, 2) == Some(2)
  {
    var used := NeighbourZones().used;
    assert used[1];
    assert RunFree(used, 2, 2);
    FirstRunIsLeast(used, 0, BITS, 2);
  }

  /** Without guard words the promise fails for more than one page: asking the first of two
      neighbouring zones for two pages hands out one page of each and charges both to the first. */
  lemma UnguardedRequestEscapes()
    ensures Table(NeighbourZones()) && Conserved(NeighbourZones())
    ensures AllocPages(NeighbourZones(), ZoneNormal, 2).1 == Some(2)
    ensures Table(AllocPages(NeighbourZones(), ZoneNormal, 2).0)
    ensures !Conserved(AllocPages(NeighbourZones(), ZoneNormal, 2).0)
  {
    var m := NeighbourZones();
    NeighbourZonesTable();
    NeighbourZonesCounts();
    NeighbourZonesRun();
    assert FirstZone(m.zones, 0, 0, 2) == Some(0);
    assert RunFree(m.used, 2, 2);
    TakeConserves(m, 0, 2, 2, {Mapped});
  }
}
