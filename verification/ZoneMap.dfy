/** From E820 entries to zones: which pages of the machine the page allocator may hand out. */
module ZoneMap {
  import opened Options
  import opened Words
  import opened Pages
  import opened E820

  /** First page that starts inside the entry: PAGE_2M_ALIGN of its address. */
  function PageLo(e: Entry): nat { (e.address + PAGE - 1) / PAGE }

  /** One past the last page that ends inside the entry. */
  function PageHi(e: Entry): nat { EndOf(e) / PAGE }

  /** Only RAM that holds at least one whole page becomes a zone. */
  predicate HasZone(e: Entry) {
    e.kind == 1 && PageLo(e) < PageHi(e)
  }

  function ZoneOf(e: Entry): Zone
    requires HasZone(e)
  {
    Zone(PageLo(e) * PAGE, PageHi(e) * PAGE, PageHi(e) - PageLo(e), 0, PageHi(e) - PageLo(e), 0)
  }

  function ZonesOf(es: seq<Entry>): seq<Zone> {
    if es == [] then []
    else ZonesOf(es[..|es| - 1]) + (if HasZone(es[|es| - 1]) then [ZoneOf(es[|es| - 1])] else [])
  }

  /** Pages up to the end of physical memory: bits_size. */
  function BitsSize(es: seq<Entry>): nat {
    if es == [] then 0 else EndOf(es[|es| - 1]) / PAGE
  }

  /** ZONE_UNMAPED_INDEX: the first zone from 4 GB on, where index 0 cannot be told from "none". */
  function UnmappedIndex(zs: seq<Zone>, i: nat): nat
    decreases |zs| - i
  {
    if i >= |zs| then 0
    else if zs[i].startAddr >= 0x1_0000_0000 && i != 0 then i
    else UnmappedIndex(zs, i + 1)
  }

  predicate Within(z: Zone, i: nat) {
    Lo(z) <= i < Hi(z)
  }

  predicate WithinSome(zs: seq<Zone>, i: nat) {
    exists z: nat :: z < |zs| && Within(zs[z], i)
  }

  /** The whole 2 MB page i lies in one entry of RAM. */
  predicate WholePage(es: seq<Entry>, i: nat) {
    exists k: nat :: k < |es| && PageInside(es[k], i)
  }

  predicate PageInside(e: Entry, i: nat) {
    e.kind == 1 && e.address <= i * PAGE && (i + 1) * PAGE <= EndOf(e)
  }

  lemma InsideIsWithin(e: Entry, i: nat)
    ensures PageInside(e, i) <==> HasZone(e) && Within(ZoneOf(e), i)
  {
  }

  /** The zones contain exactly the whole pages of RAM. */
  lemma {:induction false} ZonesAreExact(es: seq<Entry>, i: nat)
    ensures WithinSome(ZonesOf(es), i) <==> WholePage(es, i)
  {
    if es != [] {
      var n := |es| - 1;
      ZonesAreExact(es[..n], i);
      InsideIsWithin(es[n], i);
      if HasZone(es[n]) {
        ZonesAppend(ZonesOf(es[..n]), ZoneOf(es[n]), i);
      }
      WholeAppend(es, i);
      assert !HasZone(es[n]) ==> ZonesOf(es) == ZonesOf(es[..n]);
    }
  }

  lemma WholeAppend(es: seq<Entry>, i: nat)
    requires es != []
    ensures WholePage(es, i) <==> WholePage(es[..|es| - 1], i) || PageInside(es[|es| - 1], i)
  {
    var n := |es| - 1;
    if WholePage(es[..n], i) {
      var k: nat :| k < n && PageInside(es[..n][k], i);
      assert PageInside(es[k], i);
    }
    if WholePage(es, i) && !PageInside(es[n], i) {
      var k: nat :| k < |es| && PageInside(es[k], i);
      assert PageInside(es[..n][k], i);
    }
  }

  lemma ZonesAppend(zs: seq<Zone>, z: Zone, i: nat)
    ensures WithinSome(zs + [z], i) <==> WithinSome(zs, i) || Within(z, i)
  {
    if WithinSome(zs, i) {
      var k: nat :| k < |zs| && Within(zs[k], i);
      assert Within((zs + [z])[k], i);
    }
    if Within(z, i) {
      assert Within((zs + [z])[|zs|], i);
    }
  }

  /** Zones come in the order of the entries, apart from each other and below the end of memory. */
  lemma {:induction false} ZonesInOrder(es: seq<Entry>)
    requires Separated(es)
    ensures forall z: nat :: z < |ZonesOf(es)| ==> IsZone(ZonesOf(es)[z]) && Hi(ZonesOf(es)[z]) <= BitsSize(es)
    ensures forall y: nat, z: nat :: y < z < |ZonesOf(es)| ==> Hi(ZonesOf(es)[y]) <= Lo(ZonesOf(es)[z])
  {
    if es != [] {
      var n := |es| - 1;
      ZonesInOrder(es[..n]);
      assert n > 0 ==> EndOf(es[n - 1]) <= es[n].address;
      assert BitsSize(es[..n]) * PAGE <= es[n].address;
    }
  }

  /** Pages up to the end of memory: those below it that lie whole below the end of some entry. */
  lemma BitsSizeIs(es: seq<Entry>, p: nat)
    requires Separated(es)
    ensures p < BitsSize(es) <==> exists i :: 0 <= i < |es| && (p + 1) * PAGE <= EndOf(es[i])
  {
    if es != [] {
      assert forall i :: 0 <= i < |es| - 1 ==> EndOf(es[i]) <= es[|es| - 1].address <= EndOf(es[|es| - 1]);
    }
  }

  /** Zone z comes before ZONE_UNMAPED_INDEX, or there is none. */
  predicate BeforeUnmapped(unmapped: nat, z: nat) {
    unmapped == 0 || z < unmapped
  }

  /** What the index separates: the zones before it are those that start below 4 GB, and zone 0. */
  lemma UnmappedSplits(es: seq<Entry>, z: nat)
    requires Separated(es) && z < |ZonesOf(es)|
    ensures BeforeUnmapped(UnmappedIndex(ZonesOf(es), 0), z) <==> z == 0 || ZonesOf(es)[z].startAddr < 0x1_0000_0000
    ensures UnmappedIndex(ZonesOf(es), 0) == 0 || UnmappedIndex(ZonesOf(es), 0) < |ZonesOf(es)|
  {
    var zs := ZonesOf(es);
    ZonesInOrder(es);
    UnmappedIsFirst(zs, 0);
    var u := UnmappedIndex(zs, 0);
    assert IsZone(zs[z]);
    if 0 < u < z {
      assert IsZone(zs[u]);
    }
  }

  lemma {:induction false} UnmappedIsFirst(zs: seq<Zone>, i: nat)
    ensures var u := UnmappedIndex(zs, i);
      && (u != 0 ==> i <= u < |zs| && zs[u].startAddr >= 0x1_0000_0000)
      && forall y: nat :: i <= y && 0 < y < (if u == 0 then |zs| else u) && y < |zs| ==> zs[y].startAddr < 0x1_0000_0000
    decreases |zs| - i
  {
    if i < |zs| && !(zs[i].startAddr >= 0x1_0000_0000 && i != 0) {
      UnmappedIsFirst(zs, i + 1);
    }
  }

  /** Whatever page of a zone: each of its bytes lies in memory the firmware described as RAM. */
  lemma ZonePagesAreRam(ds: seq<Descriptor>, es: seq<Entry>, p: nat, a: nat)
    requires DescriptorsApart(ds) && multiset(es) == multiset(MergeAll(ds)) && Ascending(es)
    requires WithinSome(ZonesOf(es[..Recorded(es, 0)]), p) && p * PAGE <= a < (p + 1) * PAGE
    ensures Holds(ds, {LoaderCode, LoaderData, BootServicesCode, BootServicesData,
      RuntimeServicesCode, RuntimeServicesData, ConventionalMemory, PersistentMemory}, a)
  {
    var kept := es[..Recorded(es, 0)];
    ZonesAreExact(kept, p);
    var k: nat :| k < |kept| && PageInside(kept[k], p);
    CoverOnce(es, k, a, Some(1));
    LoaderMap(ds, es);
  }

  /** An aligned, non-empty, completely free zone. */
  predicate IsZone(z: Zone) {
    && Lo(z) < Hi(z) && z.startAddr == Lo(z) * PAGE && z.endAddr == Hi(z) * PAGE
    && z.pagesLength == Hi(z) - Lo(z) == z.freeCount && z.usingCount == 0 && z.link == 0
  }

  /** Bitmap and descriptors as the construction loop leaves them for a list of zones. */
  ghost predicate Built(zs: seq<Zone>, used: seq<bool>, pages: seq<Page>) {
    && (forall i: nat :: i < |used| ==> (!used[i] <==> WithinSome(zs, i)))
    && (forall z: nat, i: nat :: z < |zs| && Within(zs[z], i) ==> DescribedAs(pages, i, z))
  }

  /** A page of zone z as yet without attributes or references; page 0 is set up by hand later on. */
  predicate DescribedAs(pages: seq<Page>, i: nat, z: nat) {
    && i < |pages| && pages[i].zone == Some(z) && pages[i].phys == i * PAGE
    && (i > 0 ==> pages[i].attribute == {} && pages[i].refs == 0)
  }

  lemma {:induction false} CountAllClear(used: seq<bool>, lo: nat, hi: nat)
    requires lo <= hi <= |used| && forall i :: lo <= i < hi ==> !used[i]
    ensures CountClear(used, lo, hi) == hi - lo
    decreases hi
  {
    if lo < hi {
      CountAllClear(used, lo, hi - 1);
    }
  }

  /** The freshly built memory satisfies every invariant of the page allocator. */
  lemma BuiltIsSound(es: seq<Entry>, m: Memory)
    requires Separated(es) && m.zones == ZonesOf(es) && m.zones != [] && m.dma == 0 && m.normal == 0
    requires Built(m.zones, m.used, m.pages)
    requires |m.pages| == BitsSize(es) && |m.used| == BITS * ((BitsSize(es) + 63) / 64 + 2)
    ensures Table(m) && Conserved(m)
  {
    ZonesInOrder(es);
    forall z: nat | z < |m.zones|
      ensures ZoneShape(m, z)
    {
      assert IsZone(m.zones[z]);
    }
    forall z: nat, i: nat | z < |m.zones| && InZone(m, z, i)
      ensures Described(m, i, z)
    {
      assert Within(m.zones[z], i);
    }
    forall i: nat | i < |m.used| && !InSomeZone(m, i)
      ensures m.used[i]
    {
      if WithinSome(m.zones, i) {
        var z: nat :| z < |m.zones| && Within(m.zones[z], i);
        assert InZone(m, z, i);
        assert false;
      }
    }
    assert Table(m);
    forall z: nat | z < |m.zones|
      ensures ZoneExact(m, z)
    {
      assert IsZone(m.zones[z]) && ZoneShape(m, z);
      forall i | Lo(m.zones[z]) <= i < Hi(m.zones[z])
        ensures !m.used[i]
      {
        assert Within(m.zones[z], i);
      }
      CountAllClear(m.used, Lo(m.zones[z]), Hi(m.zones[z]));
    }
  }

  /** Descriptor by descriptor, and what ZONE_UNMAPED_INDEX separates. */
  lemma BuiltInDetail(es: seq<Entry>, m: Memory)
    requires Separated(es) && m.zones == ZonesOf(es) && Built(m.zones, m.used, m.pages) && m.unmapped == UnmappedIndex(m.zones, 0)
    ensures forall z: nat, i: nat :: z < |m.zones| && Within(m.zones[z], i) && 0 < i < |m.pages| ==>
      m.pages[i] == Page(Some(z), i * PAGE, {}, 0)
    ensures forall z: nat :: z < |m.zones| ==>
      m.zones[z].link == 0 && (BeforeUnmapped(m.unmapped, z) <==> z == 0 || m.zones[z].startAddr < 0x1_0000_0000)
  {
    ZonesInOrder(es);
    forall z: nat | z < |m.zones|
      ensures m.zones[z].link == 0 && (BeforeUnmapped(m.unmapped, z) <==> z == 0 || m.zones[z].startAddr < 0x1_0000_0000)
    {
      assert IsZone(m.zones[z]);
      UnmappedSplits(es, z);
    }
    forall z: nat, i: nat | z < |m.zones| && Within(m.zones[z], i) && 0 < i < |m.pages|
      ensures m.pages[i] == Page(Some(z), i * PAGE, {}, 0)
    {
      assert DescribedAs(m.pages, i, z);
    }
  }

  // ---------------------------------------------------------------- steps of the construction loop

  /** The free zone of pages lo up to hi. */
  function Span(lo: nat, hi: nat): Zone
    requires lo <= hi
  {
    Zone(lo * PAGE, hi * PAGE, hi - lo, 0, hi - lo, 0)
  }

  /** Where the next zone goes: after the earlier ones and below the end of memory. */
  lemma BeyondEarlier(es: seq<Entry>, i: nat)
    requires Separated(es) && i < |es|
    ensures |ZonesOf(es[..i])| <= i && PageHi(es[i]) <= BitsSize(es)
    ensures forall z: nat :: z < |ZonesOf(es[..i])| ==> Hi(ZonesOf(es[..i])[z]) <= PageLo(es[i])
    ensures ZonesOf(es[..i + 1]) == ZonesOf(es[..i]) + (if HasZone(es[i]) then [Span(PageLo(es[i]), PageHi(es[i]))] else [])
  {
    assert es[..i + 1][..i] == es[..i];
    FewZones(es[..i]);
    ZonesInOrder(es[..i]);
    assert i > 0 ==> EndOf(es[i - 1]) <= es[i].address;
    assert i < |es| - 1 ==> EndOf(es[i]) <= es[|es| - 1].address;
  }

  lemma {:induction false} FewZones(es: seq<Entry>)
    ensures |ZonesOf(es)| <= |es|
  {
    if es != [] {
      FewZones(es[..|es| - 1]);
    }
  }

  /** Page 0 is described by hand, whether it lies in the first zone or in none. */
  lemma FirstPage(es: seq<Entry>, used: seq<bool>, pages: seq<Page>)
    requires Separated(es) && ZonesOf(es) != [] && Built(ZonesOf(es), used, pages) && |pages| == BitsSize(es)
    ensures |pages| > 0 && Built(ZonesOf(es), used, pages[0 := Page(Some(0), 0, BOOT_FLAGS, 1)])
  {
    var zs := ZonesOf(es);
    ZonesInOrder(es);
    assert IsZone(zs[0]);
    forall z: nat, i: nat | z < |zs| && Within(zs[z], i)
      ensures DescribedAs(pages[0 := Page(Some(0), 0, BOOT_FLAGS, 1)], i, z)
    {
      assert IsZone(zs[z]) && DescribedAs(pages, i, z);
      assert z > 0 ==> Hi(zs[0]) <= Lo(zs[z]);
    }
  }

  lemma BuiltNothing(used: seq<bool>, pages: seq<Page>)
    requires forall i :: 0 <= i < |used| ==> used[i]
    ensures Built([], used, pages)
  {
  }

  lemma BuiltStart(zs: seq<Zone>, start: nat, used: seq<bool>, pages: seq<Page>)
    requires Built(zs, used, pages)
    ensures Built(zs + [Span(start, start)], used, pages)
  {
    forall i: nat
      ensures WithinSome(zs + [Span(start, start)], i) <==> WithinSome(zs, i)
    {
      ZonesAppend(zs, Span(start, start), i);
    }
    forall z: nat, i: nat | z < |zs| + 1 && Within((zs + [Span(start, start)])[z], i)
      ensures DescribedAs(pages, i, z)
    {
      assert Within(zs[z], i);
    }
  }

  /** Describing one more page and flipping its bit extends the last zone by that page; the flip
      clears the bit because no earlier zone contains the page. */
  lemma BuiltStep(zs: seq<Zone>, start: nat, mid: nat, used: seq<bool>, pages: seq<Page>)
    requires start <= mid < |pages| <= |used|
    requires Built(zs + [Span(start, mid)], used, pages)
    requires forall z: nat :: z < |zs| ==> Hi(zs[z]) <= start
    ensures Built(zs + [Span(start, mid + 1)], used[mid := !used[mid]],
                  pages[mid := Page(Some(|zs|), mid * PAGE, {}, 0)])
  {
    var a, b := Span(start, mid), Span(start, mid + 1);
    forall i: nat
      ensures WithinSome(zs + [a], i) <==> WithinSome(zs, i) || Within(a, i)
      ensures WithinSome(zs + [b], i) <==> WithinSome(zs, i) || Within(b, i)
    {
      ZonesAppend(zs, a, i);
      ZonesAppend(zs, b, i);
    }
    assert !WithinSome(zs, mid);
    forall z: nat, i: nat | z < |zs + [b]| && Within((zs + [b])[z], i)
      ensures DescribedAs(pages[mid := Page(Some(|zs|), mid * PAGE, {}, 0)], i, z)
    {
      if z < |zs| {
        assert Within((zs + [a])[z], i);
      } else if i < mid {
        assert Within((zs + [a])[|zs|], i);
      }
    }
  }
}
