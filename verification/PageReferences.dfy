/** References to physical pages: page_init and page_clean count them in the descriptor and in the zone,
    and nothing else touches them. */
module PageReferences {
  import opened Pages

  /** References to the pages lo up to hi. */
  function RefSum(pages: seq<Page>, lo: nat, hi: nat): int
    decreases hi
  {
    if hi <= lo then 0 else RefSum(pages, lo, hi - 1) + (if hi - 1 < |pages| then pages[hi - 1].refs else 0)
  }

  /** How far total_pages_link of a zone is ahead of the references to its pages. */
  function LinkGap(m: Memory, z: nat): int
    requires z < |m.zones|
  {
    m.zones[z].link - RefSum(m.pages, Lo(m.zones[z]), Hi(m.zones[z]))
  }

  predicate SameLinks(m: Memory, m': Memory) {
    |m'.zones| == |m.zones| && forall z: nat :: z < |m.zones| ==> LinkGap(m', z) == LinkGap(m, z)
  }

  lemma SameLinksTrans(a: Memory, b: Memory, c: Memory)
    requires SameLinks(a, b) && SameLinks(b, c)
    ensures SameLinks(a, c)
  {
  }

  lemma {:induction false} RefSumSame(a: seq<Page>, b: seq<Page>, lo: nat, hi: nat)
    requires |a| == |b| && forall i :: lo <= i < hi && i < |a| ==> a[i].refs == b[i].refs
    ensures RefSum(a, lo, hi) == RefSum(b, lo, hi)
    decreases hi
  {
    if lo < hi {
      RefSumSame(a, b, lo, hi - 1);
    }
  }

  lemma {:induction false} RefSumPut(a: seq<Page>, i: nat, p: Page, lo: nat, hi: nat)
    requires i < |a|
    ensures RefSum(a[i := p], lo, hi) == RefSum(a, lo, hi) + (if lo <= i < hi then p.refs - a[i].refs else 0)
    decreases hi
  {
    if lo < hi {
      RefSumPut(a, i, p, lo, hi - 1);
    }
  }

  /** Bits, page counters and attributes have nothing to do with references. */
  lemma LinksUntouched(m: Memory, m': Memory)
    requires |m'.zones| == |m.zones| && |m'.pages| == |m.pages|
    requires forall z :: 0 <= z < |m.zones| ==>
      m'.zones[z].link == m.zones[z].link && Lo(m'.zones[z]) == Lo(m.zones[z]) && Hi(m'.zones[z]) == Hi(m.zones[z])
    requires forall i :: 0 <= i < |m.pages| ==> m'.pages[i].refs == m.pages[i].refs
    ensures SameLinks(m, m')
  {
    forall z: nat | z < |m.zones|
      ensures LinkGap(m', z) == LinkGap(m, z)
    {
      RefSumSame(m.pages, m'.pages, Lo(m.zones[z]), Hi(m.zones[z]));
    }
  }

  /** A reference that moves in the descriptor moves in the zone of the page. */
  lemma LinkFollows(m: Memory, m': Memory, i: nat, z: nat, p: Page)
    requires Table(m) && z < |m.zones| && InZone(m, z, i) && i < |m.pages|
    requires m'.pages == m.pages[i := p]
    requires m'.zones == m.zones[z := m.zones[z].(link := m.zones[z].link + p.refs - m.pages[i].refs)]
    ensures SameLinks(m, m')
  {
    forall y: nat | y < |m.zones|
      ensures LinkGap(m', y) == LinkGap(m, y)
    {
      RefSumPut(m.pages, i, p, Lo(m.zones[y]), Hi(m.zones[y]));
      if y != z && InZone(m, y, i) {
        ZonesDisjoint(m, y, z, i);
        assert false;
      }
    }
  }

  /** page_init adds the flags, and a reference when the page had none or is shared: in the descriptor and
      in the zone alike. */
  lemma InitMeans(m: Memory, i: nat, z: nat, flags: set<Flag>)
    requires Table(m) && Described(m, i, z) && InZone(m, z, i)
    ensures var m', p := PageInit(m, i, z, flags), m.pages[i];
      var more := if p.refs == 0 || Shared in p.attribute || Shared in flags then 1 else 0;
      && m'.pages == m.pages[i := p.(attribute := p.attribute + flags, refs := p.refs + more)]
      && m'.zones == m.zones[z := m.zones[z].(link := m.zones[z].link + more)]
      && m'.used == m.used && SameLinks(m, m')
  {
    var m', p := PageInit(m, i, z, flags), m.pages[i];
    var more := if p.refs == 0 || Shared in p.attribute || Shared in flags then 1 else 0;
    assert m'.zones == m.zones[z := m.zones[z].(link := m.zones[z].link + more)];
    LinkFollows(m, m', i, z, m'.pages[i]);
  }

  /** page_clean takes one away in both, and with the last one every attribute but that the page is
      mapped. */
  lemma CleanMeans(m: Memory, i: nat, z: nat)
    requires Table(m) && Described(m, i, z) && InZone(m, z, i)
    ensures var m', p := PageClean(m, i, z), m.pages[i];
      && m'.pages[i].refs == p.refs - 1
      && (p.refs == 1 ==> forall f :: f in m'.pages[i].attribute <==> f == Mapped && Mapped in p.attribute)
      && (p.refs != 1 ==> m'.pages[i].attribute == p.attribute)
      && m'.zones[z].link == m.zones[z].link - 1
      && m'.used == m.used && SameLinks(m, m')
  {
    var m' := PageClean(m, i, z);
    LinkFollows(m, m', i, z, m'.pages[i]);
  }

  /** A reference made and dropped again leaves the page and its zone as they were. */
  lemma CleanUndoesInit(m: Memory, i: nat, z: nat, flags: set<Flag>)
    requires Table(m) && Described(m, i, z) && InZone(m, z, i) && m.pages[i].refs == 0 && m.pages[i].attribute <= {Mapped}
    requires Mapped !in flags
    ensures Described(PageInit(m, i, z, flags), i, z) && PageClean(PageInit(m, i, z, flags), i, z) == m
  {
    var m1 := PageInit(m, i, z, flags);
    InitMeans(m, i, z, flags);
    assert m1.pages[i].attribute * {Mapped} == m.pages[i].attribute;
    assert PageClean(m1, i, z).pages == m.pages && PageClean(m1, i, z).zones == m.zones;
  }

  /** alloc_pages leaves references alone. */
  lemma AllocKeepsRefs(m: Memory, sel: ZoneSelect, n: int)
    ensures SameLinks(m, AllocPages(m, sel, n).0)
    ensures |AllocPages(m, sel, n).0.pages| == |m.pages|
    ensures forall i :: 0 <= i < |m.pages| ==> AllocPages(m, sel, n).0.pages[i].refs == m.pages[i].refs
  {
    var z := AllocMeans(m, sel, n);
    LinksUntouched(m, AllocPages(m, sel, n).0);
  }

  /** free_pages too. */
  lemma {:induction false} FreeKeepsRefs(m: Memory, p: nat, n: nat)
    requires BackedRun(m, p, n)
    ensures SameLinks(m, FreeRun(m, p, n))
    ensures |FreeRun(m, p, n).pages| == |m.pages|
    ensures forall i :: 0 <= i < |m.pages| ==> FreeRun(m, p, n).pages[i].refs == m.pages[i].refs
    decreases n
  {
    if n > 0 {
      assert Backed(m, p);
      BackedAfterFree(m, p, n);
      var m1 := FreeOne(m, p, m.pages[p].zone.value);
      LinksUntouched(m, m1);
      FreeKeepsRefs(m1, p + 1, n - 1);
    }
  }

  /** What the start-up code reserves: every page of the run gets the flags, and its first reference if it
      had none; the others keep theirs. */
  lemma {:induction false} ReserveMeans(m: Memory, p: nat, n: nat, flags: set<Flag>)
    requires Table(m) && BackedRun(m, p, n) && ZonedRun(m, p, n) && Shared !in flags
    requires forall i :: p <= i < p + n && i < |m.pages| ==> Shared !in m.pages[i].attribute
    ensures var m' := ReserveRun(m, p, n, flags);
      && SameLinks(m, m') && |m'.pages| == |m.pages|
      && (forall i :: 0 <= i < |m.pages| && !(p <= i < p + n) ==> m'.pages[i] == m.pages[i])
      && (forall i :: p <= i < p + n && i < |m.pages| ==>
            && m'.pages[i].refs == (if m.pages[i].refs == 0 then 1 else m.pages[i].refs)
            && m'.pages[i].attribute == m.pages[i].attribute + flags)
    decreases n
  {
    hide CountClear, RefSum;
    if n > 0 {
      assert Zoned(m, p) && Backed(m, p);
      var z := m.pages[p].zone.value;
      var m1 := Reserve(m, p, z, flags);
      ReserveDrift(m, p, z, flags);
      ReserveNext(m, p, n, flags);
      ReserveOneMeans(m, p, z, flags);
      hide *;
      ReserveMeans(m1, p + 1, n - 1, flags);
      SameLinksTrans(m, m1, ReserveRun(m1, p + 1, n - 1, flags));
    }
  }

  lemma ReserveOneMeans(m: Memory, p: nat, z: nat, flags: set<Flag>)
    requires Table(m) && z < |m.zones| && InZone(m, z, p) && Described(m, p, z)
    requires Shared !in flags && Shared !in m.pages[p].attribute
    ensures var m', page := Reserve(m, p, z, flags), m.pages[p];
      && SameLinks(m, m')
      && m'.pages == m.pages[p := page.(attribute := page.attribute + flags, refs := if page.refs == 0 then 1 else page.refs)]
  {
    var taken := Take(m, z, p, 1, m.pages[p].attribute);
    TakeTable(m, z, p, 1, m.pages[p].attribute);
    assert taken.used == m.used[p := true] && taken.pages == m.pages;
    LinksUntouched(m, taken);
    InitMeans(taken, p, z, flags);
    SameLinksTrans(m, taken, Reserve(m, p, z, flags));
  }
}
