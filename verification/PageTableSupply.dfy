/** How many tables pagetable_init still has to make, and that it succeeds exactly when the heap has the
    pages for them. */
module PageTableSupply {
  import opened Pages
  import opened Heap
  import opened HeapInvariant
  import opened HeapSupply
  import opened PageTables

  // ---------------------------------------------------------------- slabs that allocations take

  /** New slabs of `per` objects that n allocations take from a pool with `free` objects left. */
  function Refills(n: nat, free: int, per: nat): nat
    requires per > 0
  {
    if n <= free then 0 else (n - free + per - 1) / per
  }

  /** Objects left after one more was taken. */
  function Rest(free: int, per: nat): int
  {
    (if free == 0 then per else free) - 1
  }

  /** Taking one object at a time, a new slab is needed whenever the pool is empty. */
  lemma RefillsStep(n: nat, free: int, per: nat)
    requires per > 0 && n > 0 && free >= 0
    ensures Refills(n, free, per) == (if free == 0 then 1 else 0) + Refills(n - 1, Rest(free, per), per)
  {
    hide Refills;
    if free == 0 {
      FirstRefill(n, per);
    } else {
      SameRefill(n, free, per);
    }
  }

  lemma SameRefill(n: nat, free: int, per: nat)
    requires per > 0 && n > 0 && free > 0
    ensures Refills(n, free, per) == Refills(n - 1, free - 1, per)
  {
    assert n - free + per - 1 == (n - 1) - (free - 1) + per - 1;
  }

  lemma FirstRefill(n: nat, per: nat)
    requires per > 0 && n > 0
    ensures Refills(n, 0, per) == 1 + Refills(n - 1, per - 1, per)
  {
    NextSlab(n - 1, per);
    if n <= per {
      Quotient(n - 1, per, 0, n - 1);
    } else {
      assert n - 1 - (per - 1) + per - 1 == n - 1;
    }
  }

  lemma NextSlab(n: nat, per: nat)
    requires per > 0
    ensures (n + per) / per == 1 + n / per
  {
    var q, r := n / per, n % per;
    assert n == q * per + r;
    assert n + per == (1 + q) * per + r;
    Quotient(n + per, per, 1 + q, r);
  }

  lemma Quotient(a: nat, per: nat, q: nat, r: nat)
    requires per > 0 && r < per && a == q * per + r
    ensures a / per == q
  {
    Unique(a / per, q, per, a % per, r);
  }

  lemma Unique(p: nat, q: nat, per: nat, s: nat, r: nat)
    requires r < per && s < per && p * per + s == q * per + r
    ensures p == q
  {
    if p < q {
      Gap(p, q - p, per);
    } else if p > q {
      Gap(q, p - q, per);
    }
  }

  lemma Gap(p: nat, d: nat, per: nat)
    requires d > 0
    ensures (p + d) * per >= p * per + per
  {
    assert (p + d) * per == p * per + d * per;
    assert d * per == per + (d - 1) * per;
  }

  lemma {:induction false} RefillsGrow(n: nat, free: int, per: nat)
    requires per > 0 && n > 0 && free >= 0
    ensures Refills(n - 1, free, per) <= Refills(n, free, per)
    decreases n
  {
    hide Refills;
    if n > 1 {
      RefillsStep(n, free, per);
      RefillsStep(n - 1, free, per);
      RefillsGrow(n - 1, Rest(free, per), per);
    } else {
      NoRefill(free, per);
    }
  }

  lemma NoRefill(free: int, per: nat)
    requires per > 0 && free >= 0
    ensures Refills(0, free, per) == 0
  {
  }

  // ---------------------------------------------------------------- pages that tables take

  /** The pool that serves the bitmap of a slab of tables. */
  const MAP_CLASS: nat := 1

  lemma TableSlab()
    ensures MapClass(TABLE_CLASS) == MAP_CLASS && NewCount(TABLE_CLASS) == FullCount(TABLE_CLASS) > 0
    ensures TailCount(HEADER_CLASS) > 0 && TailCount(MAP_CLASS) > 0
  {
  }

  /** Pages that n tables take when the three pools have f tables, x headers and y bitmaps left: one for
      each new slab of tables, and those for the headers and bitmaps of these slabs. */
  function Budget(n: nat, f: int, x: int, y: int, perTable: nat, perHeader: nat, perMap: nat): nat
    requires perTable > 0 && perHeader > 0 && perMap > 0
  {
    var k := Refills(n, f, perTable);
    k + Refills(k, x, perHeader) + Refills(k, y, perMap)
  }

  lemma BudgetStep(n: nat, f: int, x: int, y: int, perTable: nat, perHeader: nat, perMap: nat)
    requires perTable > 0 && perHeader > 0 && perMap > 0 && f >= 0 && x >= 0 && y >= 0 && n > 0
    ensures Budget(n, f, x, y, perTable, perHeader, perMap)
         == if f == 0
            then 1 + (if x == 0 then 1 else 0) + (if y == 0 then 1 else 0)
                 + Budget(n - 1, Rest(f, perTable), Rest(x, perHeader), Rest(y, perMap), perTable, perHeader, perMap)
            else Budget(n - 1, Rest(f, perTable), x, y, perTable, perHeader, perMap)
  {
    hide Refills;
    RefillsStep(n, f, perTable);
    if f == 0 {
      var k := Refills(n, f, perTable);
      RefillsStep(k, x, perHeader);
      RefillsStep(k, y, perMap);
    }
  }

  lemma NoBudget(f: int, x: int, y: int, perTable: nat, perHeader: nat, perMap: nat)
    requires perTable > 0 && perHeader > 0 && perMap > 0 && f >= 0 && x >= 0 && y >= 0
    ensures Budget(0, f, x, y, perTable, perHeader, perMap) == 0
  {
  }

  /** Pages that the next n tables take. */
  function PagesFor(h: Heap, n: nat): nat
    requires |h.pools| == CLASSES
  {
    TableSlab();
    Budget(n, h.pools[TABLE_CLASS].free, h.pools[HEADER_CLASS].free, h.pools[MAP_CLASS].free,
      FullCount(TABLE_CLASS), TailCount(HEADER_CLASS), TailCount(MAP_CLASS))
  }

  lemma PoolNotNegative(h: Heap, c: nat)
    requires Inv(h) && c < CLASSES
    ensures |h.pools| == CLASSES && h.pools[c].free >= 0
  {
    assert In(h.pools, c, 0) && PoolOk(h.pools[c]);
    var ring := h.pools[c].ring;
    forall l | 0 <= l < |ring|
      ensures ring[l].free >= 0
    {
      assert In(h.pools, c, l) && SlabOk(c, l, At(h.pools, c, l));
      UsedExtremes(ring[l].bits, ring[l].count);
    }
    SumNonNegative(ring);
  }

  lemma PoolsNotNegative(h: Heap)
    requires Inv(h)
    ensures Shaped(h.pools) && |h.pools| == CLASSES
    ensures h.pools[TABLE_CLASS].free >= 0 && h.pools[HEADER_CLASS].free >= 0 && h.pools[MAP_CLASS].free >= 0
  {
    hide Inv;
    PoolNotNegative(h, TABLE_CLASS);
    PoolNotNegative(h, HEADER_CLASS);
    PoolNotNegative(h, MAP_CLASS);
  }

  lemma TableIsClass(h: Heap)
    requires Shaped(h.pools)
    ensures Kmalloc(h, TABLE) == MallocClass(h, TABLE_CLASS)
  {
    LargestFits(TABLE);
    ClassOfFits(TABLE, 0);
    SmallestForTable(ClassOf(TABLE, 0));
  }

  /** kmalloc(4096) fails exactly when there are fewer free pages than one table takes; a success takes
      from the pages that n tables take just those of the first. */
  lemma TableSupplied(h: Heap, n: nat)
    requires Inv(h) && n > 0
    ensures var (h', r) := Kmalloc(h, TABLE);
      && |h.pools| == CLASSES && |h'.pools| == CLASSES
      && (r.None? ==> PagesFor(h, n) > Avail(h.mem))
      && (r.Some? ==>
            && PagesFor(h, n) - Avail(h.mem) == PagesFor(h', n - 1) - Avail(h'.mem) && 0 <= Avail(h'.mem)
            && r.value.cls == TABLE_CLASS && Addr(r.value) >= PAGE_OFFSET)
  {
    hide Inv, Kmalloc, MallocClass, Avail, NewCount, Shaped, Stored, SamePlan, Addr, TailCount, FullCount, MapClass, Budget;
    PoolsNotNegative(h);
    TableIsNew(h, map[]);
    TableIsClass(h);
    TableSlab();
    MallocSupply(h, TABLE_CLASS);
    MallocDraws(h, TABLE_CLASS);
    var (h', r) := Kmalloc(h, TABLE);
    PoolsNotNegative(h');
    MallocSupply(h', TABLE_CLASS);
    BudgetStep(n, h.pools[TABLE_CLASS].free, h.pools[HEADER_CLASS].free, h.pools[MAP_CLASS].free,
      FullCount(TABLE_CLASS), TailCount(HEADER_CLASS), TailCount(MAP_CLASS));
  }

  /** n tables in a row. */
  ghost predicate Granted(h: Heap, n: nat)
    requires Shaped(h.pools)
    decreases n
  {
    n == 0 || (Kmalloc(h, TABLE).1.Some? && Granted(Kmalloc(h, TABLE).0, n - 1))
  }

  /** The closed form is right: n tables can be had exactly when there are the pages for them. */
  lemma {:induction false} GrantedExact(h: Heap, n: nat)
    requires Inv(h)
    ensures |h.pools| == CLASSES && (Granted(h, n) <==> PagesFor(h, n) <= Avail(h.mem))
    decreases n
  {
    hide Inv, Kmalloc, Avail, PagesFor;
    PoolsNotNegative(h);
    if n == 0 {
      NoPages(h);
    } else {
      TableSupplied(h, n);
      TableIsNew(h, map[]);
      if Kmalloc(h, TABLE).1.Some? {
        GrantedExact(Kmalloc(h, TABLE).0, n - 1);
      }
    }
  }

  lemma NoPages(h: Heap)
    requires Inv(h)
    ensures |h.pools| == CLASSES && PagesFor(h, 0) == 0 <= Avail(h.mem)
  {
    hide Inv, Avail, MallocClass, Budget, TailCount, FullCount;
    PoolsNotNegative(h);
    MallocSupply(h, TABLE_CLASS);
    TableSlab();
    NoBudget(h.pools[TABLE_CLASS].free, h.pools[HEADER_CLASS].free, h.pools[MAP_CLASS].free,
      FullCount(TABLE_CLASS), TailCount(HEADER_CLASS), TailCount(MAP_CLASS));
  }

  // ---------------------------------------------------------------- tables that are missing

  /** Groups of 512 pages, and of 0x40000, in the kernel half. */
  const GROUPS: nat := PAGES / 512
  const THIRDS: nat := PAGES / 0x4_0000

  /** There is a lowest-level table for the q-th group of 512 pages. */
  predicate HasTable(w: EntryWords, root: nat, q: nat) {
    var e4 := Read(w, Slot(Base(root), Index4(512 * q)));
    Present(e4) && Present(Read(w, Slot(Base(e4), Index3(512 * q))))
  }

  /** There is a third-level table for the k-th 512 GB. */
  predicate HasThird(w: EntryWords, root: nat, k: nat) {
    Present(Read(w, Slot(Base(root), 256 + k)))
  }

  /** Some page to be mapped needs the table of group q, or the third-level table of the k-th 512 GB. */
  ghost predicate NeedsTable(ps: set<nat>, q: nat) {
    exists p :: p in ps && p / 512 == q
  }

  ghost predicate NeedsThird(ps: set<nat>, k: nat) {
    exists p :: p in ps && p / 0x4_0000 == k
  }

  ghost function Lacking(w: EntryWords, root: nat, ps: set<nat>, n: nat): nat
    decreases n, root
  {
    if n == 0 then 0
    else Lacking(w, root, ps, n - 1) + (if NeedsTable(ps, n - 1) && !HasTable(w, root, n - 1) then 1 else 0)
  }

  ghost function LackingThird(w: EntryWords, root: nat, ps: set<nat>, n: nat): nat
    decreases n, root
  {
    if n == 0 then 0
    else LackingThird(w, root, ps, n - 1) + (if NeedsThird(ps, n - 1) && !HasThird(w, root, n - 1) then 1 else 0)
  }

  /** Tables that are missing for a set of pages. */
  ghost function Missing(w: EntryWords, root: nat, ps: set<nat>): nat {
    Lacking(w, root, ps, GROUPS) + LackingThird(w, root, ps, THIRDS)
  }

  lemma {:induction false} LackingBound(w: EntryWords, root: nat, ps: set<nat>, pages: nat, n: nat)
    requires forall p :: p in ps ==> p < pages
    ensures Lacking(w, root, ps, n) <= (pages + 511) / 512 && LackingThird(w, root, ps, n) <= (pages + 0x3_ffff) / 0x4_0000
    ensures Lacking(w, root, ps, n) <= n && LackingThird(w, root, ps, n) <= n
    decreases n
  {
    if n > 0 {
      LackingBound(w, root, ps, pages, n - 1);
      assert NeedsTable(ps, n - 1) ==> n <= (pages + 511) / 512;
      assert NeedsThird(ps, n - 1) ==> n <= (pages + 0x3_ffff) / 0x4_0000;
    }
  }

  /** Never more than one table for each GB and one for each 512 GB begun. */
  lemma MissingBound(w: EntryWords, root: nat, ps: set<nat>, pages: nat)
    requires forall p :: p in ps ==> p < pages
    ensures Missing(w, root, ps) <= (pages + 511) / 512 + (pages + 0x3_ffff) / 0x4_0000
  {
    LackingBound(w, root, ps, pages, GROUPS);
    LackingBound(w, root, ps, pages, THIRDS);
  }

  lemma {:induction false} LackingChange(w: EntryWords, w': EntryWords, root: nat, ps: set<nat>, n: nat, q: nat)
    requires forall x: nat :: x < n && x != q ==> HasTable(w', root, x) == HasTable(w, root, x)
    ensures Lacking(w', root, ps, n) == Lacking(w, root, ps, n)
      + (if q < n && NeedsTable(ps, q) && HasTable(w, root, q) then 1 else 0)
      - (if q < n && NeedsTable(ps, q) && HasTable(w', root, q) then 1 else 0)
    decreases n
  {
    if n > 0 {
      LackingChange(w, w', root, ps, n - 1, q);
    }
  }

  lemma {:induction false} LackingThirdChange(w: EntryWords, w': EntryWords, root: nat, ps: set<nat>, n: nat, k: nat)
    requires forall x: nat :: x < n && x != k ==> HasThird(w', root, x) == HasThird(w, root, x)
    ensures LackingThird(w', root, ps, n) == LackingThird(w, root, ps, n)
      + (if k < n && NeedsThird(ps, k) && HasThird(w, root, k) then 1 else 0)
      - (if k < n && NeedsThird(ps, k) && HasThird(w', root, k) then 1 else 0)
    decreases n
  {
    if n > 0 {
      LackingThirdChange(w, w', root, ps, n - 1, k);
    }
  }

  // ---------------------------------------------------------------- what one new table supplies

  lemma GroupIndexes(p: nat)
    requires p < PAGES
    ensures Index4(512 * (p / 512)) == Index4(p) && Index3(512 * (p / 512)) == Index3(p) && 512 * (p / 512) < PAGES
    ensures Index4(p) == 256 + p / 0x4_0000
  {
    IndexForm(p);
    IndexForm(512 * (p / 512));
    assert 512 * (p / 512) / 512 == p / 512;
    assert 512 * (p / 512) / 0x4_0000 == p / 0x4_0000;
  }

  lemma GroupsDiffer(q: nat, r: nat)
    requires 512 * q < PAGES && 512 * r < PAGES && Index4(512 * q) == Index4(512 * r) && Index3(512 * q) == Index3(512 * r)
    ensures q == r
  {
    IndexForm(512 * q);
    IndexForm(512 * r);
    IndexesTellPages(512 * q, 512 * r);
  }

  /** A new third-level table is empty: it serves its 512 GB, and no group of pages yet. */
  lemma ThirdSupplied(w: EntryWords, root: nat, ts: Tables, i: nat, nb: nat, q: nat)
    requires Tree(w, root, ts) && 256 <= i < 512 && Read(w, Slot(Base(root), i)) == 0
    requires nb % TABLE == 0 && nb !in ts
    ensures var w' := w[Slot(Base(root), i) := Entry(nb, DIRECTORY)];
      && (512 * q < PAGES ==> HasTable(w', root, q) == HasTable(w, root, q))
      && (q < 256 ==> HasThird(w', root, q) == (HasThird(w, root, q) || 256 + q == i))
  {
    var e := Entry(nb, DIRECTORY);
    var b := Base(root);
    EntryKeepsAddress(nb, DIRECTORY);
    RootIsRoot(w, root, ts);
    TableAligned(w, root, ts, b);
    if 512 * q < PAGES {
      IndexRange(512 * q);
      WalkPath(w, root, ts, 512 * q);
      hide Entry, Index4, Index3, Tree, Slot, Base;
      UnusedIsZero(w, root, ts, nb, Index3(512 * q));
      WriteElsewhere(w, root, ts, b, i, e, nb, Index3(512 * q));
      var e4 := Read(w, Slot(b, Index4(512 * q)));
      if i != Index4(512 * q) {
        WriteElsewhere(w, root, ts, b, i, e, b, Index4(512 * q));
        if Present(e4) {
          TableAligned(w, root, ts, Base(e4));
          WriteElsewhere(w, root, ts, b, i, e, Base(e4), Index3(512 * q));
        }
      }
    }
    if q < 256 && 256 + q != i {
      WriteElsewhere(w, root, ts, b, i, e, b, 256 + q);
    }
  }

  /** A new lowest-level table serves exactly its own group of pages. */
  lemma SecondSupplied(w: EntryWords, root: nat, ts: Tables, i4: nat, i3: nat, nb: nat, q: nat)
    requires Tree(w, root, ts) && 256 <= i4 < 512 && i3 < 512 && Present(Read(w, Slot(Base(root), i4)))
    requires Read(w, Slot(Base(Read(w, Slot(Base(root), i4))), i3)) == 0 && nb % TABLE == 0 && nb !in ts
    ensures var b := Base(Read(w, Slot(Base(root), i4)));
      var w' := w[Slot(b, i3) := Entry(nb, DIRECTORY)];
      && b in ts && ts[b] == Third(i4)
      && (512 * q < PAGES ==> HasTable(w', root, q) == (HasTable(w, root, q) || (Index4(512 * q) == i4 && Index3(512 * q) == i3)))
      && (q < 256 ==> HasThird(w', root, q) == HasThird(w, root, q))
  {
    var e, r := Entry(nb, DIRECTORY), Base(root);
    EntryKeepsAddress(nb, DIRECTORY);
    RootIsRoot(w, root, ts);
    assert Leads(w, ts, Slot(r, i4), Third(i4));
    TableAligned(w, root, ts, r);
    var b := Base(Read(w, Slot(r, i4)));
    if 512 * q < PAGES {
      IndexRange(512 * q);
      WalkPath(w, root, ts, 512 * q);
      hide Entry, Index4, Index3, Tree, Slot, Base;
      WriteElsewhere(w, root, ts, b, i3, e, r, Index4(512 * q));
      var e4 := Read(w, Slot(r, Index4(512 * q)));
      if Present(e4) {
        TableAligned(w, root, ts, Base(e4));
        if b != Base(e4) || i3 != Index3(512 * q) {
          WriteElsewhere(w, root, ts, b, i3, e, Base(e4), Index3(512 * q));
        }
      }
    }
    if q < 256 {
      WriteElsewhere(w, root, ts, b, i3, e, r, 256 + q);
    }
  }

  /** The lowest entries matter to neither. */
  lemma LastSupplies(w: EntryWords, root: nat, ts: Tables, b: nat, i: nat, e: nat, q: nat)
    requires Tree(w, root, ts) && b in ts && ts[b].Second? && i < 512
    ensures var w' := w[Slot(b, i) := e];
      && (512 * q < PAGES ==> HasTable(w', root, q) == HasTable(w, root, q))
      && (q < 256 ==> HasThird(w', root, q) == HasThird(w, root, q))
  {
    var r := Base(root);
    RootIsRoot(w, root, ts);
    TableAligned(w, root, ts, r);
    if 512 * q < PAGES {
      IndexRange(512 * q);
      WalkPath(w, root, ts, 512 * q);
      hide Entry, Index4, Index3, Tree, Slot, Base;
      WriteElsewhere(w, root, ts, b, i, e, r, Index4(512 * q));
      var e4 := Read(w, Slot(r, Index4(512 * q)));
      if Present(e4) {
        TableAligned(w, root, ts, Base(e4));
        WriteElsewhere(w, root, ts, b, i, e, Base(e4), Index3(512 * q));
      }
    }
    if q < 256 {
      WriteElsewhere(w, root, ts, b, i, e, r, 256 + q);
    }
  }

  // ---------------------------------------------------------------- the supply is exact

  lemma {:induction false} LackingPositive(w: EntryWords, root: nat, ps: set<nat>, n: nat, q: nat)
    requires q < n
    ensures NeedsTable(ps, q) && !HasTable(w, root, q) ==> Lacking(w, root, ps, n) > 0
    ensures NeedsThird(ps, q) && !HasThird(w, root, q) ==> LackingThird(w, root, ps, n) > 0
    decreases n
  {
    if q < n - 1 {
      LackingPositive(w, root, ps, n - 1, q);
    }
  }

  lemma {:induction false} LackingNothing(w: EntryWords, root: nat, ps: set<nat>, n: nat)
    requires forall q: nat :: q < n && NeedsTable(ps, q) ==> HasTable(w, root, q)
    ensures Lacking(w, root, ps, n) == 0
    decreases n
  {
    if n > 0 {
      LackingNothing(w, root, ps, n - 1);
    }
  }

  lemma {:induction false} LackingNoThird(w: EntryWords, root: nat, ps: set<nat>, n: nat)
    requires forall k: nat :: k < n && NeedsThird(ps, k) ==> HasThird(w, root, k)
    ensures LackingThird(w, root, ps, n) == 0
    decreases n
  {
    if n > 0 {
      LackingNoThird(w, root, ps, n - 1);
    }
  }

  lemma InRange(ps: set<nat>, p: nat)
    requires p in ps && p < PAGES
    ensures NeedsTable(ps, p / 512) && NeedsThird(ps, p / 0x4_0000)
    ensures p / 512 < GROUPS && p / 0x4_0000 < THIRDS == 256
    ensures forall q: nat :: q < GROUPS ==> 512 * q < PAGES
  {
  }

  /** Where every page has its walk, nothing is missing. */
  lemma NothingMissing(w: EntryWords, root: nat, ps: set<nat>)
    requires forall p :: p in ps ==> p < PAGES && Walk(w, root, p).Some?
    ensures Missing(w, root, ps) == 0
  {
    forall q: nat | NeedsTable(ps, q)
      ensures HasTable(w, root, q)
    {
      var p :| p in ps && p / 512 == q;
      WalkHasTables(w, root, p);
    }
    forall k: nat | NeedsThird(ps, k)
      ensures HasThird(w, root, k)
    {
      var p :| p in ps && p / 0x4_0000 == k;
      WalkHasTables(w, root, p);
    }
    hide *;
    LackingNothing(w, root, ps, GROUPS);
    LackingNoThird(w, root, ps, THIRDS);
    MissingIs(w, root, ps);
  }

  lemma MissingIs(w: EntryWords, root: nat, ps: set<nat>)
    ensures Missing(w, root, ps) == Lacking(w, root, ps, GROUPS) + LackingThird(w, root, ps, THIRDS)
  {
  }

  lemma WalkHasTables(w: EntryWords, root: nat, p: nat)
    requires p < PAGES && Walk(w, root, p).Some?
    ensures HasTable(w, root, p / 512) && HasThird(w, root, p / 0x4_0000)
  {
    GroupIndexes(p);
    hide Index4, Index3, Index2, Base, Slot;
  }

  /** The heap has the free pages for all tables that are missing. */
  ghost predicate Suffices(s: Space, root: nat, ps: set<nat>) {
    |s.heap.pools| == CLASSES && PagesFor(s.heap, Missing(s.words, root, ps)) <= Avail(s.heap.mem)
  }

  lemma SufficesForNone(s: Space, root: nat, ps: set<nat>)
    requires |s.heap.pools| == CLASSES && PagesFor(s.heap, 0) <= Avail(s.heap.mem) && Missing(s.words, root, ps) == 0
    ensures Suffices(s, root, ps)
  {
    hide PagesFor, Avail, Missing;
  }

  lemma ThirdCounts(w: EntryWords, root: nat, ts: Tables, p: nat, nb: nat, ps: set<nat>)
    requires Tree(w, root, ts) && p in ps && p < PAGES && Read(w, Slot(Base(root), Index4(p))) == 0
    requires nb % TABLE == 0 && nb !in ts
    ensures Missing(w[Slot(Base(root), Index4(p)) := Entry(nb, DIRECTORY)], root, ps) == Missing(w, root, ps) - 1
  {
    GroupIndexes(p);
    InRange(ps, p);
    var i, k := Index4(p), p / 0x4_0000;
    var w' := w[Slot(Base(root), i) := Entry(nb, DIRECTORY)];
    forall q: nat | q < GROUPS
      ensures HasTable(w', root, q) == HasTable(w, root, q)
    {
      ThirdSupplied(w, root, ts, i, nb, q);
    }
    forall q: nat | q < THIRDS
      ensures HasThird(w', root, q) == (HasThird(w, root, q) || q == k)
    {
      ThirdSupplied(w, root, ts, i, nb, q);
    }
    assert !HasThird(w, root, k);
    hide HasTable, HasThird, Entry;
    LackingChange(w, w', root, ps, GROUPS, GROUPS);
    LackingThirdChange(w, w', root, ps, THIRDS, k);
  }

  lemma SecondCounts(w: EntryWords, root: nat, ts: Tables, p: nat, nb: nat, ps: set<nat>)
    requires Tree(w, root, ts) && p in ps && p < PAGES && Present(Read(w, Slot(Base(root), Index4(p))))
    requires Read(w, Slot(Base(Read(w, Slot(Base(root), Index4(p)))), Index3(p))) == 0 && nb % TABLE == 0 && nb !in ts
    ensures var b := Base(Read(w, Slot(Base(root), Index4(p))));
      Missing(w[Slot(b, Index3(p)) := Entry(nb, DIRECTORY)], root, ps) == Missing(w, root, ps) - 1
  {
    var b := Base(Read(w, Slot(Base(root), Index4(p))));
    var w' := w[Slot(b, Index3(p)) := Entry(nb, DIRECTORY)];
    IndexRange(p);
    GroupIndexes(p);
    InRange(ps, p);
    assert !HasTable(w, root, p / 512);
    forall q: nat | q < GROUPS
      ensures HasTable(w', root, q) == (HasTable(w, root, q) || q == p / 512)
    {
      SecondSupplied(w, root, ts, Index4(p), Index3(p), nb, q);
      if Index4(512 * q) == Index4(p) && Index3(512 * q) == Index3(p) {
        GroupsDiffer(q, p / 512);
      }
    }
    forall q: nat | q < THIRDS
      ensures HasThird(w', root, q) == HasThird(w, root, q)
    {
      SecondSupplied(w, root, ts, Index4(p), Index3(p), nb, q);
    }
    hide HasTable, HasThird, Entry, Index4, Index3, Slot, Base;
    LackingChange(w, w', root, ps, GROUPS, p / 512);
    LackingThirdChange(w, w', root, ps, THIRDS, THIRDS);
  }

  lemma LastCounts(w: EntryWords, root: nat, ts: Tables, b: nat, i: nat, e: nat, ps: set<nat>)
    requires Tree(w, root, ts) && b in ts && ts[b].Second? && i < 512
    ensures Missing(w[Slot(b, i) := e], root, ps) == Missing(w, root, ps)
  {
    var w' := w[Slot(b, i) := e];
    forall q: nat | q < GROUPS
      ensures HasTable(w', root, q) == HasTable(w, root, q)
    {
      LastSupplies(w, root, ts, b, i, e, q);
    }
    forall q: nat | q < THIRDS
      ensures HasThird(w', root, q) == HasThird(w, root, q)
    {
      LastSupplies(w, root, ts, b, i, e, q);
    }
    hide HasTable, HasThird;
    LackingChange(w, w', root, ps, GROUPS, GROUPS);
    LackingThirdChange(w, w', root, ps, THIRDS, THIRDS);
  }

  /** What a step of the builder does to that: it goes through only where the heap may suffice, and leaves
      the question as it was. */
  ghost predicate Decides(s: Space, s': Space, ok: bool, root: nat, ps: set<nat>) {
    if ok then Suffices(s', root, ps) <==> Suffices(s, root, ps) else !Suffices(s, root, ps)
  }

  ghost predicate OneLess(w: EntryWords, root: nat, a: int, nb: nat, ps: set<nat>) {
    Missing(w[a := Entry(nb, DIRECTORY)], root, ps) == Missing(w, root, ps) - 1
  }

  /** Making a table at a, which counts for one of those missing. */
  lemma OneSupplied(s: Space, root: nat, ts: Tables, a: int, ps: set<nat>)
    requires Inv(s.heap) && AllStored(s.heap, ts) && Shaped(s.heap.pools)
    requires Read(s.words, a) == 0 && Missing(s.words, root, ps) > 0
    requires forall nb: nat :: nb % TABLE == 0 && nb !in ts ==> OneLess(s.words, root, a, nb, ps)
    ensures var (s1, ok) := Descend(s, a); Decides(s, s1, ok, root, ps)
  {
    hide Inv, Kmalloc, Missing, Entry, Addr, Shaped, AllStored, Stored, SamePlan, PagesFor, Avail;
    TableIsNew(s.heap, ts);
    TableSupplied(s.heap, Missing(s.words, root, ps));
    var o := Kmalloc(s.heap, TABLE).1;
    if o.Some? {
      assert OneLess(s.words, root, a, Addr(o.value) - PAGE_OFFSET, ps);
    }
  }

  lemma FirstDescend(s: Space, root: nat, ts: Tables, p: nat, ps: set<nat>)
    requires Built(s, root, ts) && p in ps && p < PAGES
    ensures Shaped(s.heap.pools)
    ensures var (s1, ok) := Descend(s, Slot(Base(root), Index4(p))); Decides(s, s1, ok, root, ps)
  {
    BuiltIs(s, root, ts);
    var a := Slot(Base(root), Index4(p));
    if Read(s.words, a) == 0 {
      InRange(ps, p);
      GroupIndexes(p);
      assert !HasThird(s.words, root, p / 0x4_0000);
      hide Inv, Kmalloc, Entry, Stored, Lacking, LackingThird, Tree, Descend, Shaped, Index4, HasThird, NeedsThird, Decides;
      LackingPositive(s.words, root, ps, THIRDS, p / 0x4_0000);
      forall nb: nat | nb % TABLE == 0 && nb !in ts
        ensures OneLess(s.words, root, a, nb, ps)
      {
        ThirdCounts(s.words, root, ts, p, nb, ps);
      }
      OneSupplied(s, root, ts, a, ps);
    }
  }

  lemma SecondDescend(s: Space, root: nat, ts: Tables, p: nat, ps: set<nat>)
    requires Built(s, root, ts) && p in ps && p < PAGES && Present(Read(s.words, Slot(Base(root), Index4(p))))
    ensures Shaped(s.heap.pools)
    ensures var (s1, ok) := Descend(s, Slot(Base(Read(s.words, Slot(Base(root), Index4(p)))), Index3(p)));
      Decides(s, s1, ok, root, ps)
  {
    BuiltIs(s, root, ts);
    var b := Base(Read(s.words, Slot(Base(root), Index4(p))));
    var a := Slot(b, Index3(p));
    if Read(s.words, a) == 0 {
      InRange(ps, p);
      NotThere(s.words, root, p);
      hide Inv, Kmalloc, Entry, Stored, Lacking, LackingThird, Tree, Descend, Shaped, Index4, Index3, HasTable, HasThird, NeedsTable, Decides;
      LackingPositive(s.words, root, ps, GROUPS, p / 512);
      forall nb: nat | nb % TABLE == 0 && nb !in ts
        ensures OneLess(s.words, root, a, nb, ps)
      {
        SecondCounts(s.words, root, ts, p, nb, ps);
      }
      OneSupplied(s, root, ts, a, ps);
    }
  }

  lemma NotThere(w: EntryWords, root: nat, p: nat)
    requires p < PAGES && Read(w, Slot(Base(Read(w, Slot(Base(root), Index4(p)))), Index3(p))) == 0
    ensures !HasTable(w, root, p / 512)
  {
    GroupIndexes(p);
    hide Index4, Index3, Base, Slot;
  }

  /** Inserting a page of the set fails only when the heap has too few free pages for the tables missing
      for the set; a success leaves it as sufficient or insufficient as it was. */
  lemma MapPageSupplied(s: Space, root: nat, ts: Tables, p: nat, ps: set<nat>)
    requires Built(s, root, ts) && p in ps && p < PAGES
    ensures Shaped(s.heap.pools) && Decides(s, MapPage(s, root, p).0, MapPage(s, root, p).1, root, ps)
  {
    hide Index4, Index3, Index2, Tree, Slot, Base, Entry, Descend, Inv, Stored, SamePlan, Kmalloc, Shaped, WithTable, Leads, Missing, Avail, PagesFor;
    BuiltIs(s, root, ts);
    var i4, i3 := Index4(p), Index3(p);
    var a4 := Slot(Base(root), i4);
    WalkPath(s.words, root, ts, p);
    DescendOk(s, root, ts, Base(root), i4, Third(i4));
    FirstDescend(s, root, ts, p, ps);
    var (s1, ok1) := Descend(s, a4);
    if ok1 {
      var ts1 := WithTable(s, ts, a4, Third(i4));
      BuiltIs(s1, root, ts1);
      WalkPath(s1.words, root, ts1, p);
      var b3 := Base(Read(s1.words, a4));
      DescendOk(s1, root, ts1, b3, i3, Second(i4, i3));
      SecondDescend(s1, root, ts1, p, ps);
      var a3 := Slot(b3, i3);
      var (s2, ok2) := Descend(s1, a3);
      if ok2 {
        var ts2 := WithTable(s1, ts1, a3, Second(i4, i3));
        assert Read(s2.words, a4) == Read(s1.words, a4) by { UpperStays(s1, root, ts1, p); }
        LastFound(s2.words, root, ts2, p);
        IndexRange(p);
        LastCounts(s2.words, root, ts2, Base(Read(s2.words, a3)), Index2(p), Entry(p * PAGE, LARGE_PAGE), ps);
      }
    }
  }
}
