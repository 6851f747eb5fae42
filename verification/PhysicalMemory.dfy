/** The page allocator as the kernel runs it: bitmap words, zone records and page descriptors
    updated in place. Every method is tied to the value-level operation of module Pages. */
module PhysicalMemory {
  import opened Options
  import opened Words
  import opened Pages
  import opened E820
  import opened ZoneMap

  class PageAllocator {
    const bitsMap: array<Word>
    const zones: array<Zone>
    const pages: array<Page>
    var zonesSize: nat
    var dmaIndex: nat
    var normalIndex: nat
    var unmappedIndex: nat
    var endOfStruct: int

    /** init_memory up to the reservation of the kernel's own pages. The bitmap is followed by two
        words that read as used. */
    constructor (table: seq<Entry>)
      requires Separated(table) && ZonesOf(table) != []
      ensures Valid() && Conserved(State()) && fresh(bitsMap) && fresh(zones) && fresh(pages)
      ensures zones[..zonesSize] == ZonesOf(table) && pages.Length == BitsSize(table)
      ensures bitsMap.Length == (BitsSize(table) + 63) / 64 + 2
      ensures unmappedIndex == UnmappedIndex(ZonesOf(table), 0) && dmaIndex == normalIndex == 0 && endOfStruct == 0
      ensures forall z: nat :: z < zonesSize ==>
        zones[z].link == 0 && (BeforeUnmapped(unmappedIndex, z) <==> z == 0 || zones[z].startAddr < 0x1_0000_0000)
      ensures pages.Length > 0 && pages[0] == Page(Some(0), 0, {Mapped, KernelInit, Flag.Kernel}, 1)
      ensures forall z: nat, i: nat :: z < zonesSize && Within(zones[z], i) && 0 < i < pages.Length ==>
        pages[i] == Page(Some(z), i * PAGE, {}, 0)
      ensures forall i: nat :: i < 64 * bitsMap.Length ==> (!State().used[i] <==> WholePage(table, i))
    {
      var size := EndOf(table[|table| - 1]) / PAGE;
      bitsMap := new Word[(size + 63) / 64 + 2](_ => ONES);
      pages := new Page[size](_ => Page(None, 0, {}, 0));
      zones := new Zone[|table|](_ => Zone(0, 0, 0, 0, 0, 0));
      zonesSize, dmaIndex, normalIndex, unmappedIndex, endOfStruct := 0, 0, 0, 0, 0;
      new;
      BuiltNothing(Flat(bitsMap[..]), pages[..]);
      AddZones(table);
      FirstPage(table, Flat(bitsMap[..]), pages[..]);
      pages[0] := Page(Some(0), 0, BOOT_FLAGS, 1);
      unmappedIndex := FindUnmapped();
      BuiltIsSound(table, State());
      BuiltInDetail(table, State());
      forall i: nat | i < 64 * bitsMap.Length
        ensures !State().used[i] <==> WholePage(table, i)
      {
        ZonesAreExact(table, i);
      }
    }

    /** The loop over the zones that sets ZONE_UNMAPED_INDEX. */
    method FindUnmapped() returns (index: nat)
      requires zonesSize <= zones.Length
      ensures index == UnmappedIndex(zones[..zonesSize], 0)
    {
      index := 0;
      var i := 0;
      while i < zonesSize
        invariant 0 <= i <= zonesSize
        invariant UnmappedIndex(zones[..zonesSize], 0) == if index != 0 then index else UnmappedIndex(zones[..zonesSize], i)
      {
        if zones[i].startAddr >= 0x1_0000_0000 && index == 0 {
          index := i;
        }
        i := i + 1;
      }
    }

    /** The loop over the memory entries that creates the zones. */
    method AddZones(table: seq<Entry>)
      requires Separated(table) && zonesSize == 0 && |table| <= zones.Length
      requires BitsSize(table) <= pages.Length <= 64 * bitsMap.Length
      requires Built([], Flat(bitsMap[..]), pages[..])
      modifies this`zonesSize, zones, pages, bitsMap
      ensures zonesSize <= zones.Length && zones[..zonesSize] == ZonesOf(table)
      ensures Built(ZonesOf(table), Flat(bitsMap[..]), pages[..])
    {
      hide Built;
      var i := 0;
      while i < |table|
        invariant 0 <= i <= |table| && zonesSize <= i
        invariant zones[..zonesSize] == ZonesOf(table[..i])
        invariant Built(ZonesOf(table[..i]), Flat(bitsMap[..]), pages[..])
      {
        BeyondEarlier(table, i);
        if table[i].kind == 1 {
          var start, end := (table[i].address + PAGE - 1) / PAGE, EndOf(table[i]) / PAGE;
          if end > start {
            AddZone(start, end);
          }
        }
        i := i + 1;
      }
      assert table[..i] == table;
    }

    /** One zone with its descriptors and its clear bits. */
    method AddZone(start: nat, end: nat)
      requires zonesSize < zones.Length && start < end <= pages.Length <= 64 * bitsMap.Length
      requires Built(zones[..zonesSize], Flat(bitsMap[..]), pages[..])
      requires forall z: nat :: z < zonesSize ==> Hi(zones[z]) <= start
      modifies this`zonesSize, zones, pages, bitsMap
      ensures zonesSize == old(zonesSize) + 1
      ensures zones[..zonesSize] == old(zones[..zonesSize]) + [Span(start, end)]
      ensures Built(zones[..zonesSize], Flat(bitsMap[..]), pages[..])
    {
      hide Built;
      ghost var zs := zones[..zonesSize];
      var z := zonesSize;
      zonesSize := zonesSize + 1;
      zones[z] := Zone(start * PAGE, end * PAGE, end - start, 0, end - start, 0);
      BuiltStart(zs, start, Flat(bitsMap[..]), pages[..]);
      var j := 0;
      while j < end - start
        invariant 0 <= j <= end - start && zonesSize == z + 1 == |zs| + 1
        invariant zones[..zonesSize] == zs + [Span(start, end)]
        invariant Built(zs + [Span(start, start + j)], Flat(bitsMap[..]), pages[..])
      {
        AddPage(z, start + j, zs, start);
        j := j + 1;
      }
    }

    /** The body of the page loop: descriptor and bit of page p of zone z. */
    method AddPage(z: nat, p: nat, ghost zs: seq<Zone>, ghost start: nat)
      requires z == |zs| && start <= p < pages.Length <= 64 * bitsMap.Length
      requires Built(zs + [Span(start, p)], Flat(bitsMap[..]), pages[..])
      requires forall y: nat :: y < |zs| ==> Hi(zs[y]) <= start
      modifies pages, bitsMap
      ensures Built(zs + [Span(start, p + 1)], Flat(bitsMap[..]), pages[..])
    {
      hide Built;
      BuiltStep(zs, start, p, Flat(bitsMap[..]), pages[..]);
      ghost var before := pages[..];
      pages[p] := Page(Some(z), p * PAGE, {}, 0);
      assert pages[..] == before[p := Page(Some(z), p * PAGE, {}, 0)];
      FlipBit(pages[p].phys / PAGE);
    }

    method FlipBit(bit: nat)
      requires bit < 64 * bitsMap.Length
      modifies bitsMap
      ensures Flat(bitsMap[..]) == old(Flat(bitsMap[..]))[bit := !old(Flat(bitsMap[..]))[bit]]
    {
      ghost var words := bitsMap[..];
      FlatUpdates(words, bit);
      bitsMap[bit / 64] := Xor(bitsMap[bit / 64], One(bit % 64));
      assert bitsMap[..] == words[bit / 64 := Xor(words[bit / 64], One(bit % 64))];
    }

    ghost predicate Valid()
      reads this, bitsMap, zones, pages
    {
      zonesSize <= zones.Length && Table(State())
    }

    ghost function State(): Memory
      requires zonesSize <= zones.Length
      reads this, bitsMap, zones, pages
    {
      Memory(Flat(bitsMap[..]), zones[..zonesSize], pages[..], dmaIndex, normalIndex, unmappedIndex, endOfStruct)
    }

    /** The rest of init_memory: the pages of the kernel and of its tables, from page 1 to the one
        that holds the end of the boot data, leave their zones. */
    method ReserveBoot(end: nat)
      requires Valid() && BackedRun(State(), 1, end / PAGE) && ZonedRun(State(), 1, end / PAGE)
      modifies this`endOfStruct, bitsMap, zones, pages
      ensures Valid() && endOfStruct == PAGE_OFFSET + end
      ensures var m := old(State()).(endOfStruct := PAGE_OFFSET + end);
        BackedRun(m, 1, end / PAGE) && State() == ReserveRun(m, 1, end / PAGE, BOOT_FLAGS)
    {
      EndMoves(State(), PAGE_OFFSET + end, 1, end / PAGE);
      hide Table, Zoned, Backed, ReserveRun;
      endOfStruct := PAGE_OFFSET + end;
      ReserveRange(1, end / PAGE + 1);
    }

    /** Takes the pages lo up to hi for the kernel, one after the other. */
    method ReserveRange(lo: nat, hi: nat)
      requires Valid() && lo <= hi && BackedRun(State(), lo, hi - lo) && ZonedRun(State(), lo, hi - lo)
      modifies bitsMap, zones, pages
      ensures Valid() && State() == ReserveRun(old(State()), lo, hi - lo, BOOT_FLAGS)
    {
      ghost var m := State();
      var j := lo;
      while j < hi
        invariant lo <= j <= hi && Valid()
        invariant BackedRun(State(), j, hi - j) && ZonedRun(State(), j, hi - j)
        invariant ReserveRun(m, lo, hi - lo, BOOT_FLAGS) == ReserveRun(State(), j, hi - j, BOOT_FLAGS)
      {
        hide Table, Described;
        ghost var s := State();
        assert Zoned(s, j) && Backed(s, j);
        ReserveNext(s, j, hi - j, BOOT_FLAGS);
        hide Zoned, Backed, ReserveRun, Pages.Reserve;
        Reserve(j, BOOT_FLAGS);
        j := j + 1;
      }
    }

    /** alloc_pages: scans the selected zones a word at a time, testing the stitched window
        `*p >> k | *(p + 1) << (64 - k)` against the low `number` bits. */
    method AllocPages(sel: ZoneSelect, number: int) returns (page: Option<nat>)
      requires Valid()
      modifies bitsMap, zones, pages
      ensures Valid()
      ensures (State(), page) == Pages.AllocPages(old(State()), sel, number)
    {
      ghost var m := State();
      if number >= 64 || number <= 0 {
        return None;
      }
      var first: nat, last: int, attribute: set<Flag> := 0, 0, {};
      match sel {
        case ZoneDma => first, last, attribute := 0, dmaIndex, {Mapped};
        case ZoneNormal => first, last, attribute := dmaIndex, normalIndex, {Mapped};
        case ZoneUnmapped => first, last, attribute := unmappedIndex, zonesSize - 1, {};
        case OtherZone => return None;
      }
      var i := first;
      while i <= last && i < zonesSize
        invariant first <= i
        invariant FirstZone(m.zones, first, last, number) == FirstZone(m.zones, i, last, number)
      {
        if zones[i].freeCount < number {
          i := i + 1;
          continue;
        }
        var run := FindRun(i, number);
        if run.Some? {
          Occupy(i, run.value, number, attribute);
        }
        return run;
      }
      return None;
    }

    /** The stitched window test at bit k of word p. */
    method WindowIsFree(p: nat, k: nat, number: nat) returns (free: bool)
      requires p + 1 < bitsMap.Length && k < 64 && number < 64
      ensures free == RunFree(Flat(bitsMap[..]), 64 * p + k, number)
    {
      StitchedTest(bitsMap[..], p, k, number);
      free := IsZero(And(Stitch(bitsMap[p], bitsMap[p + 1], k), Low(number)));
    }

    /** The two nested scanning loops for one zone. */
    method FindRun(z: nat, number: nat) returns (page: Option<nat>)
      requires Valid() && z < zonesSize && 0 < number < 64
      ensures page == FirstRun(State().used, Lo(zones[z]), ScanEnd(zones[z]), number)
    {
      hide Table, RunFree, FirstRun, Lo, Hi, Flat;
      ghost var used := Flat(bitsMap[..]);
      ZoneIsScanned(State(), z);
      var start, end := zones[z].startAddr / PAGE, zones[z].endAddr / PAGE;
      ghost var limit := ScanEnd(zones[z]);
      var step := 64 - start % 64;
      var j := start;
      while j <= end
        invariant start <= j <= limit && (j == start || j % 64 == 0)
        invariant NoRun(used, start, j, number)
        decreases end - j
      {
        var p, shift := j / 64, j % 64;
        NextWord(start, j, end);
        var k := shift;
        while k < 64
          invariant shift <= k <= 64
          invariant NoRun(used, start, j + k - shift, number)
        {
          var free := WindowIsFree(p, k, number);
          if free {
            FirstRunIs(used, start, limit, number, Some(j + k - shift));
            return Some(j + k - shift);
          }
          k := k + 1;
        }
        j := j + if j % 64 != 0 then step else 64;
      }
      FirstRunIs(used, start, limit, number, None);
      return None;
    }

    /** From any start the scan goes on at the next word, and no further than the one that holds the end. */
    static lemma NextWord(start: nat, j: nat, end: nat)
      requires start <= j <= end && (j == start || j % 64 == 0)
      ensures var next := j + if j % 64 != 0 then 64 - start % 64 else 64;
        next == j + 64 - j % 64 && next % 64 == 0 && next <= 64 * (end / 64 + 1)
    {
    }

    method SetBit(bit: nat)
      requires bit < 64 * bitsMap.Length
      modifies bitsMap
      ensures Flat(bitsMap[..]) == old(Flat(bitsMap[..]))[bit := true]
    {
      ghost var words := bitsMap[..];
      FlatUpdates(words, bit);
      bitsMap[bit / 64] := Or(bitsMap[bit / 64], One(bit % 64));
      assert bitsMap[..] == words[bit / 64 := Or(words[bit / 64], One(bit % 64))];
    }

    method ClearBit(bit: nat)
      requires bit < 64 * bitsMap.Length
      modifies bitsMap
      ensures Flat(bitsMap[..]) == old(Flat(bitsMap[..]))[bit := false]
    {
      ghost var words := bitsMap[..];
      FlatUpdates(words, bit);
      bitsMap[bit / 64] := And(bitsMap[bit / 64], Not(One(bit % 64)));
      assert bitsMap[..] == words[bit / 64 := And(words[bit / 64], Not(One(bit % 64)))];
    }

    /** Marks the pages of a run as used, one at a time, through the address in the descriptor. */
    method Occupy(z: nat, page: nat, number: nat, attribute: set<Flag>)
      requires Valid() && z < zonesSize && RunFree(State().used, page, number)
      modifies bitsMap, zones, pages
      ensures Valid()
      ensures State() == Take(old(State()), z, page, number, attribute)
    {
      ghost var m := State();
      var l := 0;
      TakeNothing(m, z, page, attribute);
      while l < number
        invariant 0 <= l <= number
        invariant State() == Take(m, z, page, l, attribute)
        invariant Valid()
      {
        TakeStep(m, z, page, l, attribute);
        var cur := page + l;
        SetBit(pages[cur].phys / PAGE);
        zones[z] := zones[z].(freeCount := zones[z].freeCount - 1, usingCount := zones[z].usingCount + 1);
        pages[cur] := pages[cur].(attribute := attribute);
        l := l + 1;
        assert State() == Take(m, z, page, l, attribute);
      }
    }

    /** free_pages */
    method FreePages(page: Option<nat>, number: int)
      requires Valid()
      requires page.Some? && 0 < number < 64 ==> BackedRun(State(), page.value, number)
      requires page.Some? && 0 < number < 64 ==> ZonedRun(State(), page.value, number)
      modifies bitsMap, zones, pages
      ensures Valid()
      ensures State() == Pages.FreePages(old(State()), page, number)
    {
      if page.None? || number >= 64 || number <= 0 {
        return;
      }
      ghost var m := State();
      var i, cur := 0, page.value;
      while i < number
        invariant 0 <= i <= number && cur == page.value + i
        invariant Valid()
        invariant BackedRun(State(), cur, number - i) && ZonedRun(State(), cur, number - i)
        invariant FreeRun(m, page.value, number) == FreeRun(State(), cur, number - i)
      {
        FreeCurrent(cur, number - i);
        i, cur := i + 1, cur + 1;
      }
    }

    /** One step of the freeing loop: the first page of the n still to be freed. */
    method FreeCurrent(cur: nat, ghost n: nat)
      requires Valid() && 0 < n && BackedRun(State(), cur, n) && ZonedRun(State(), cur, n)
      modifies bitsMap, zones, pages
      ensures Valid()
      ensures BackedRun(State(), cur + 1, n - 1) && ZonedRun(State(), cur + 1, n - 1)
      ensures FreeRun(State(), cur + 1, n - 1) == FreeRun(old(State()), cur, n)
    {
      ghost var m := State();
      FreeStep(m, cur, n);
      var bit, z := pages[cur].phys / PAGE, pages[cur].zone.value;
      ClearBit(bit);
      zones[z] := zones[z].(freeCount := zones[z].freeCount + 1, usingCount := zones[z].usingCount - 1);
      pages[cur] := pages[cur].(attribute := {});
      assert State() == FreeOne(m, cur, z);
    }

    /** How the start-up code takes a page of a zone for the kernel itself. */
    method Reserve(page: nat, flags: set<Flag>)
      requires Valid() && Backed(State(), page) && Zoned(State(), page)
      modifies bitsMap, zones, pages
      ensures Valid()
      ensures State() == Pages.Reserve(old(State()), page, old(pages[page].zone.value), flags)
    {
      ghost var m := State();
      var z := pages[page].zone.value;
      ghost var taken := Take(m, z, page, 1, m.pages[page].attribute);
      TakeTable(m, z, page, 1, m.pages[page].attribute);
      SetBit(pages[page].phys / PAGE);
      zones[z] := zones[z].(usingCount := zones[z].usingCount + 1, freeCount := zones[z].freeCount - 1);
      assert taken.used == m.used[page := true];
      assert taken.pages == m.pages;
      assert State() == taken;
      PageInit(page, flags);
    }

    /** page_init */
    method PageInit(page: nat, flags: set<Flag>)
      requires Valid() && Backed(State(), page)
      modifies zones, pages
      ensures Valid()
      ensures State() == Pages.PageInit(old(State()), page, old(pages[page].zone.value), flags)
    {
      ghost var m := State();
      var z := pages[page].zone.value;
      pages[page] := pages[page].(attribute := pages[page].attribute + flags);
      if pages[page].refs == 0 || Shared in pages[page].attribute {
        pages[page] := pages[page].(refs := pages[page].refs + 1);
        zones[z] := zones[z].(link := zones[z].link + 1);
      }
      assert State() == Pages.PageInit(m, page, z, flags);
      InitCleanKeep(m, page, z, flags);
    }

    /** page_clean */
    method PageClean(page: nat)
      requires Valid() && Backed(State(), page)
      modifies zones, pages
      ensures Valid()
      ensures State() == Pages.PageClean(old(State()), page, old(pages[page].zone.value))
    {
      ghost var m := State();
      var z := pages[page].zone.value;
      pages[page] := pages[page].(refs := pages[page].refs - 1);
      zones[z] := zones[z].(link := zones[z].link - 1);
      if pages[page].refs == 0 {
        pages[page] := pages[page].(attribute := pages[page].attribute * {Mapped});
      }
      assert State() == Pages.PageClean(m, page, z);
      InitCleanKeep(m, page, z, {});
    }
  }

  ghost predicate NoRun(used: seq<bool>, from: nat, to: int, n: nat) {
    forall q :: from <= q < to ==> !RunFree(used, q, n)
  }

  lemma FirstRunIs(used: seq<bool>, start: nat, limit: nat, n: nat, r: Option<nat>)
    requires match r
      case Some(p) => start <= p < limit && RunFree(used, p, n) && NoRun(used, start, p, n)
      case None => NoRun(used, start, limit, n)
    ensures FirstRun(used, start, limit, n) == r
  {
    FirstRunIsLeast(used, start, limit, n);
  }

  lemma FreeStep(m: Memory, cur: nat, n: nat)
    requires Table(m) && 0 < n && BackedRun(m, cur, n) && ZonedRun(m, cur, n)
    ensures Zoned(m, cur)
    ensures var m' := FreeOne(m, cur, m.pages[cur].zone.value);
      && Table(m') && BackedRun(m', cur + 1, n - 1) && ZonedRun(m', cur + 1, n - 1)
      && FreeRun(m', cur + 1, n - 1) == FreeRun(m, cur, n)
  {
    assert Backed(m, cur) && Zoned(m, cur);
    BackedAfterFree(m, cur, n);
    ZonedAfterFree(m, cur, n);
    FreeOneDrift(m, cur, m.pages[cur].zone.value);
  }

  lemma TakeNothing(m: Memory, z: nat, p: nat, attr: set<Flag>)
    requires z < |m.zones|
    ensures Take(m, z, p, 0, attr) == m
  {
    assert Take(m, z, p, 0, attr).used == m.used;
  }

  lemma TakeStep(m: Memory, z: nat, p: nat, l: nat, attr: set<Flag>)
    requires Table(m) && z < |m.zones| && p + l < |m.used| && !m.used[p + l]
    ensures Backed(m, p + l)
    ensures Table(Take(m, z, p, l + 1, attr))
    ensures var a, b := Take(m, z, p, l, attr), Take(m, z, p, l + 1, attr);
      && b.used == a.used[p + l := true]
      && b.zones == a.zones[z := a.zones[z].(freeCount := a.zones[z].freeCount - 1,
                                             usingCount := a.zones[z].usingCount + 1)]
      && b.pages == a.pages[p + l := a.pages[p + l].(attribute := attr)]
      && a.pages[p + l].phys == (p + l) * PAGE
  {
    assert InSomeZone(m, p + l);
    var y: nat :| y < |m.zones| && InZone(m, y, p + l);
    assert Described(m, p + l, y);
    TakeTable(m, z, p, l + 1, attr);
  }

  /** What the scanning loops know about their zone. */
  lemma ZoneIsScanned(m: Memory, z: nat)
    requires Table(m) && z < |m.zones|
    ensures var zone := m.zones[z];
      zone.startAddr / PAGE == Lo(zone) <= zone.endAddr / PAGE == Hi(zone) && ScanEnd(zone) + BITS <= |m.used|
  {
    assert ZoneShape(m, z);
  }
}
