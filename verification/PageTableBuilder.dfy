/** pagetable_init in place: the tables grow in kernel memory while kmalloc supplies them. */
module PageTableBuilder {
  import opened Options
  import opened Pages
  import opened Heap
  import opened HeapInvariant
  import opened PageTables
  import opened PageTableSupply
  import KernelHeap

  /** One past the last zone that is mapped: the loop breaks at ZONE_UNMAPED_INDEX unless it is zero. */
  function Limit(m: Memory): (n: nat)
    ensures n <= |m.zones|
  {
    if 0 < m.unmapped < |m.zones| then m.unmapped else |m.zones|
  }

  /** Page p is among the first j pages of zone i, or in an earlier zone. */
  predicate Before(m: Memory, i: nat, j: nat, p: nat) {
    || (exists z: nat :: z < i && z < |m.zones| && InZone(m, z, p))
    || (i < |m.zones| && Lo(m.zones[i]) <= p < Lo(m.zones[i]) + j)
  }

  /** Page p lies in a zone to be mapped: any, or one before ZONE_UNMAPED_INDEX if there is one. */
  predicate Mappable(m: Memory, p: nat) {
    exists z: nat :: z < |m.zones| && (m.unmapped == 0 || z < m.unmapped) && InZone(m, z, p)
  }

  /** The pages of the zones to be mapped. */
  ghost function MappedPages(m: Memory): set<nat> {
    set p: nat | p < PAGES && Mappable(m, p)
  }

  lemma MappableIs(m: Memory, p: nat)
    ensures Mappable(m, p) <==> Before(m, Limit(m), 0, p)
  {
  }

  lemma ToBeMapped(m: Memory, i: nat, p: nat)
    requires i < Limit(m) && InZone(m, i, p) && p < PAGES
    ensures p in MappedPages(m)
  {
    assert Mappable(m, p);
  }

  /** Every page up to here has been mapped to itself, and every other walk is as it was. */
  ghost predicate MappedSoFar(w0: EntryWords, w: EntryWords, root: nat, m: Memory, i: nat, j: nat) {
    forall p: nat :: p < PAGES ==> Walk(w, root, p) == if Before(m, i, j, p) then Some(Identity(p)) else Walk(w0, root, p)
  }

  /** The kernel's view of memory: the upper half of the address space, from the page offset on, shows physical
      memory byte by byte in the mappable zones, for the kernel to read and write, and is otherwise as it was. */
  ghost predicate KernelMapped(w0: EntryWords, w: EntryWords, root: nat, m: Memory) {
    forall a: nat :: 0xffff_8000_0000_0000 <= a < 0x1_0000_0000_0000_0000 ==>
      Translate(w, root, a) ==
        if Mappable(m, (a - 0xffff_8000_0000_0000) / 0x20_0000) then Some(Mapping(a - 0xffff_8000_0000_0000, true, false))
        else Translate(w0, root, a)
  }

  lemma AllMappedIs(w0: EntryWords, w: EntryWords, root: nat, m: Memory)
    requires MappedSoFar(w0, w, root, m, Limit(m), 0)
    ensures KernelMapped(w0, w, root, m)
  {
    hide Walk, Translate, Limit, Before, Mappable;
    forall a: nat | 0xffff_8000_0000_0000 <= a < 0x1_0000_0000_0000_0000
      ensures Translate(w, root, a) ==
        if Mappable(m, (a - 0xffff_8000_0000_0000) / 0x20_0000) then Some(Mapping(a - 0xffff_8000_0000_0000, true, false))
        else Translate(w0, root, a)
    {
      var p, offset := (a - 0xffff_8000_0000_0000) / 0x20_0000, (a - 0xffff_8000_0000_0000) % 0x20_0000;
      assert p < PAGES;
      assert a == 0xffff_8000_0000_0000 + p * 0x20_0000 + offset;
      WalkIsTranslation(w, root, p, offset);
      WalkIsTranslation(w0, root, p, offset);
      MappableIs(m, p);
    }
  }

  class Builder {
    const heap: KernelHeap.KernelHeap
    /** Global_CR3 */
    const root: nat
    var words: EntryWords
    ghost var tables: Tables

    ghost function State(): Space
      reads this`words, heap`st
    {
      Space(words, heap.st)
    }

    ghost predicate Valid()
      reads this, heap, heap.Own, heap.mem, heap.mem.bitsMap, heap.mem.zones, heap.mem.pages
    {
      heap.Valid() && this !in heap.Own && Built(State(), root, tables)
    }

    constructor (heap: KernelHeap.KernelHeap, root: nat, words: EntryWords, ghost tables: Tables)
      requires heap.Valid() && AllStored(heap.st, tables) && Tree(words, root, tables)
      ensures this.heap == heap && this.root == root && this.words == words && this.tables == tables && Valid()
    {
      this.heap, this.root, this.words, this.tables := heap, root, words, tables;
    }

    /** The part shared by the two upper levels: kmalloc of a table for an empty entry. */
    method Descend(a: int) returns (ok: bool)
      requires heap.Valid() && this !in heap.Own
      modifies this`words, heap`st, heap`Own, heap.Own, heap.mem.bitsMap, heap.mem.zones, heap.mem.pages
      ensures heap.Valid() && this !in heap.Own && fresh(heap.Own - old(heap.Own))
      ensures Shaped(old(heap.st).pools) && (State(), ok) == PageTables.Descend(old(State()), a)
    {
      hide Inv, KernelHeap.KernelHeap.Rep, Kmalloc;
      if Read(words, a) != 0 {
        return true;
      }
      var address := heap.Kmalloc(TABLE);
      if address.None? || address.value < PAGE_OFFSET {
        return false;
      }
      words := words[a := Entry(address.value - PAGE_OFFSET, DIRECTORY)];
      return true;
    }

    /** The body of the inner loop, for page p at physical address phys. */
    method MapPage(phys: nat, ghost p: nat) returns (ok: bool)
      requires Valid() && phys == p * PAGE && p < PAGES
      modifies this, heap`st, heap`Own, heap.Own, heap.mem.bitsMap, heap.mem.zones, heap.mem.pages
      ensures Valid() && fresh(heap.Own - old(heap.Own))
      ensures (State(), ok) == PageTables.MapPage(old(State()), root, p)
      ensures SamePlan(old(heap.st).mem, heap.st.mem) && Inserted(old(words), words, root, p, ok)
    {
      ghost var s, ts := State(), tables;
      MapPageOk(s, root, ts, p);
      BuiltIs(s, root, ts);
      ok := Insert(phys, p);
      tables := WithPath(s, root, ts, p);
    }

    method Insert(phys: nat, ghost p: nat) returns (ok: bool)
      requires heap.Valid() && this !in heap.Own && phys == p * PAGE && p < PAGES && Shaped(heap.st.pools)
      modifies this`words, heap`st, heap`Own, heap.Own, heap.mem.bitsMap, heap.mem.zones, heap.mem.pages
      ensures heap.Valid() && this !in heap.Own && fresh(heap.Own - old(heap.Own))
      ensures (State(), ok) == PageTables.MapPage(old(State()), root, p)
    {
      hide KernelHeap.KernelHeap.Valid, PageTables.Descend, Index4, Index3, Index2, Entry, Base, Slot, Read, Shaped;
      AddressIndexes(phys, p);
      ghost var s := State();
      var tmp := Slot(Base(root), Index4(phys / PAGE));
      ok := Descend(tmp);
      if !ok {
        return;
      }
      tmp := Slot(Base(Read(words, tmp)), Index3(phys / PAGE));
      ok := Descend(tmp);
      if !ok {
        return;
      }
      tmp := Slot(Base(Read(words, tmp)), Index2(phys / PAGE));
      words := words[tmp := Entry(phys, LARGE_PAGE)];
    }

    /** Maps every page of every zone below ZONE_UNMAPED_INDEX. It succeeds if and only if the heap has the
        free pages for all the tables that are missing. */
    method PagetableInit() returns (ok: bool)
      requires Valid() && heap.mem.pages.Length <= PAGES
      modifies this, heap`st, heap`Own, heap.Own, heap.mem.bitsMap, heap.mem.zones, heap.mem.pages
      ensures Valid() && SamePlan(old(heap.st).mem, heap.st.mem)
      ensures ok ==> KernelMapped(old(words), words, root, old(heap.st).mem)
      ensures ok <==> Suffices(old(State()), root, MappedPages(old(heap.st).mem))
    {
      hide Suffices, MappedPages, KernelMapped;
      ghost var m, w0 := heap.st.mem, words;
      ghost var ps := MappedPages(m);
      ghost var enough := Suffices(State(), root, ps);
      SamePlanSelf(m);
      var i := 0;
      while i < heap.mem.zonesSize
        invariant Valid() && fresh(heap.Own - old(heap.Own)) && SamePlan(m, heap.st.mem)
        invariant i <= Limit(m) && MappedSoFar(w0, words, root, m, i, 0)
        invariant enough <==> Suffices(State(), root, ps)
      {
        if heap.mem.unmappedIndex != 0 && i == heap.mem.unmappedIndex {
          break;
        }
        ok := MapZone(i, m, w0);
        if !ok {
          return false;
        }
        i := i + 1;
      }
      AllMapped(State(), root, tables, w0, m);
      AllMappedIs(w0, words, root, m);
      return true;
    }

    /** The inner loop: the pages of one zone. */
    method MapZone(i: nat, ghost m: Memory, ghost w0: EntryWords) returns (ok: bool)
      requires Valid() && heap.mem.pages.Length <= PAGES && i < heap.mem.zonesSize && i < Limit(m)
      requires SamePlan(m, heap.st.mem) && MappedSoFar(w0, words, root, m, i, 0)
      modifies this, heap`st, heap`Own, heap.Own, heap.mem.bitsMap, heap.mem.zones, heap.mem.pages
      ensures Valid() && fresh(heap.Own - old(heap.Own)) && SamePlan(m, heap.st.mem)
      ensures ok ==> MappedSoFar(w0, words, root, m, i + 1, 0)
      ensures Decides(old(State()), State(), ok, root, MappedPages(m))
    {
      hide Suffices, MappedPages, MappedSoFar, SamePlan, Inserted, Inv, Built, Lo, Hi, KernelHeap.KernelHeap.Valid, PageTables.MapPage, Walk, Shaped;
      ghost var ps, enough := MappedPages(m), Suffices(State(), root, MappedPages(m));
      var first, length := Extent(i, m);
      var j := 0;
      while j < length
        invariant j <= length && Valid() && fresh(heap.Own - old(heap.Own)) && SamePlan(m, heap.st.mem)
        invariant MappedSoFar(w0, words, root, m, i, j)
        invariant enough <==> Suffices(State(), root, ps)
      {
        ghost var h, w := heap.st, words;
        var phys := Phys(first + j, m, i, j);
        ToBeMapped(m, i, first + j);
        MapPageSupplied(State(), root, tables, first + j, ps);
        ok := MapPage(phys, first + j);
        SamePlanChain(m, h.mem, heap.st.mem);
        if !ok {
          return false;
        }
        OneMore(w0, w, words, root, m, i, j);
        j := j + 1;
      }
      WholeZone(w0, words, root, m, i, length);
      return true;
    }

    /** First page and number of pages of a zone. */
    method Extent(i: nat, ghost m: Memory) returns (first: nat, length: nat)
      requires heap.Valid() && i < heap.mem.zonesSize && SamePlan(m, heap.st.mem)
      ensures i < |m.zones| && first == Lo(m.zones[i]) && length == Hi(m.zones[i]) - Lo(m.zones[i])
    {
      hide Inv, SamePlan, Lo, Hi;
      ZoneExtent(heap.st, m, i);
      assert heap.mem.zones[i] == heap.st.mem.zones[i];
      first := heap.mem.zones[i].startAddr / PAGE;
      length := heap.mem.zones[i].pagesLength;
    }

    /** PHY_address of a page of a zone. */
    method Phys(p: nat, ghost m: Memory, ghost i: nat, ghost j: nat) returns (phys: nat)
      requires heap.Valid() && i < |m.zones| && SamePlan(m, heap.st.mem) && heap.mem.pages.Length <= PAGES
      requires j < Hi(m.zones[i]) - Lo(m.zones[i]) && p == Lo(m.zones[i]) + j
      ensures phys == p * PAGE && p < heap.mem.pages.Length <= PAGES
    {
      hide Inv, SamePlan, Lo, Hi;
      ZonePage(heap.st, m, i, j);
      assert heap.mem.pages[..] == heap.st.mem.pages;
      assert heap.mem.pages[p] == heap.mem.pages[..][p];
      phys := heap.mem.pages[p].phys;
    }
  }

  /** Once every page is mapped nothing is missing, so the heap has sufficed. */
  lemma AllMapped(s: Space, root: nat, ts: Tables, w0: EntryWords, m: Memory)
    requires Built(s, root, ts) && MappedSoFar(w0, s.words, root, m, Limit(m), 0)
    ensures Suffices(s, root, MappedPages(m))
  {
    var ps := MappedPages(m);
    forall p | p in ps
      ensures p < PAGES && Walk(s.words, root, p).Some?
    {
      MappableIs(m, p);
    }
    hide *;
    BuiltIs(s, root, ts);
    NothingMissing(s.words, root, ps);
    NoPages(s.heap);
    SufficesForNone(s, root, ps);
  }

  lemma ZoneExtent(h: Heap, m: Memory, i: nat)
    requires Inv(h) && SamePlan(m, h.mem) && i < |h.mem.zones|
    ensures i < |m.zones| && h.mem.zones[i].startAddr / PAGE == Lo(m.zones[i])
    ensures h.mem.zones[i].pagesLength == Hi(m.zones[i]) - Lo(m.zones[i])
  {
    assert ZoneShape(h.mem, i);
  }

  /** The j-th descriptor of zone i is that of a page of the zone. */
  lemma ZonePage(h: Heap, m: Memory, i: nat, j: nat)
    requires Inv(h) && SamePlan(m, h.mem) && i < |m.zones| && j < Hi(m.zones[i]) - Lo(m.zones[i])
    ensures var p := Lo(m.zones[i]) + j;
      p < |h.mem.pages| && h.mem.pages[p].phys == p * PAGE && h.mem.pages[p].phys / PAGE == p
  {
    assert ZoneShape(h.mem, i);
    assert InZone(h.mem, i, Lo(h.mem.zones[i]) + j);
    assert Described(h.mem, Lo(h.mem.zones[i]) + j, i);
  }

  lemma OneMore(w0: EntryWords, w: EntryWords, w': EntryWords, root: nat, m: Memory, i: nat, j: nat)
    requires i < |m.zones| && MappedSoFar(w0, w, root, m, i, j)
    requires Inserted(w, w', root, Lo(m.zones[i]) + j, true)
    ensures MappedSoFar(w0, w', root, m, i, j + 1)
  {
    hide Walk, Lo, InZone;
    var p := Lo(m.zones[i]) + j;
    forall q: nat | q < PAGES
      ensures Walk(w', root, q) == if Before(m, i, j + 1, q) then Some(Identity(q)) else Walk(w0, root, q)
    {
      assert Before(m, i, j + 1, q) <==> Before(m, i, j, q) || q == p;
    }
  }

  lemma WholeZone(w0: EntryWords, w: EntryWords, root: nat, m: Memory, i: nat, length: nat)
    requires i < |m.zones| && MappedSoFar(w0, w, root, m, i, length) && length == Hi(m.zones[i]) - Lo(m.zones[i])
    ensures MappedSoFar(w0, w, root, m, i + 1, 0)
  {
    hide Walk;
    forall q: nat | q < PAGES
      ensures Before(m, i + 1, 0, q) <==> Before(m, i, length, q)
    {
      if Before(m, i, length, q) && Lo(m.zones[i]) <= q < Lo(m.zones[i]) + length {
        assert InZone(m, i, q);
      }
    }
  }

  lemma AddressIndexes(phys: nat, p: nat)
    requires phys == p * PAGE
    ensures phys / PAGE == p
  {
  }
}