/** The page-table builder as a value: three levels of 4 KB tables in kernel memory, the walk the
    processor makes through them, and the insertion of one 2 MB page. */
module PageTables {
  import opened Options
  import opened Pages
  import opened Heap
  import opened HeapInvariant
  import opened HeapSupply
  import opened HeapTheorems
  import opened HeapSafety

  /** PAGE_4K_SIZE */
  const TABLE := 4096
  /** PAGE_KERNEL_GDT and PAGE_KERNEL_Dir */
  const DIRECTORY := 3
  /** PAGE_KERNEL_Page */
  const LARGE_PAGE := 0x83
  /** Pages below the 128 TB that the kernel half of the address space covers. */
  const PAGES := 0x400_0000
  /** The pool that serves kmalloc(4096). */
  const TABLE_CLASS: nat := 7

  // ---------------------------------------------------------------- entries

  /** The words of memory used as table entries, by virtual address. */
  type EntryWords = map<int, nat>

  /** A word never written as an entry reads as zero. */
  function Read(w: EntryWords, a: int): nat {
    if a in w then w[a] else 0
  }

  /** `entry & ~0xfff` */
  function Base(entry: nat): nat {
    entry - entry % TABLE
  }

  /** `addr | attr` for attributes in the low twelve bits. */
  function Entry(addr: nat, attr: nat): nat
    requires attr < TABLE
  {
    Base(addr) + (((addr % TABLE) as bv12) | (attr as bv12)) as nat
  }

  /** The address of entry i of the table at physical address b. */
  function Slot(b: nat, i: nat): int {
    PAGE_OFFSET + b + 8 * i
  }

  /** The three indexes taken from the virtual address of page p. */
  function Index4(p: nat): nat { (PAGE_OFFSET + p * PAGE) / 0x80_0000_0000 % 512 }
  function Index3(p: nat): nat { (PAGE_OFFSET + p * PAGE) / 0x4000_0000 % 512 }
  function Index2(p: nat): nat { (PAGE_OFFSET + p * PAGE) / 0x20_0000 % 512 }

  // Bits 0, 1, 2 and 7 of an entry: present, writable, for user programs too, and page size.

  predicate Present(entry: nat) {
    entry % 2 == 1
  }

  predicate Writable(entry: nat) {
    entry % TABLE / 2 % 2 == 1
  }

  predicate ForUser(entry: nat) {
    entry % TABLE / 4 % 2 == 1
  }

  predicate Large(entry: nat) {
    entry % TABLE / 128 % 2 == 1
  }

  /** Where a virtual page leads, and who may do what there. */
  datatype Mapping = Mapping(phys: nat, writable: bool, user: bool) {
    function Plus(offset: nat): Mapping {
      Mapping(phys + offset, writable, user)
    }
  }

  /** What the processor makes of an address: bits 39 to 47, 30 to 38 and 21 to 29 choose an entry of eight
      bytes at each level, and the low 21 bits are the place in the 2 MB page. The upper two entries must
      lead to tables and the last one to a page; what every entry allows is allowed. */
  function Translate(w: EntryWords, cr3: nat, address: nat): Option<Mapping> {
    var e4 := Read(w, 0xffff_8000_0000_0000 + cr3 / 4096 * 4096 + address / 0x80_0000_0000 % 512 * 8);
    if !Present(e4) || Large(e4) then None else
      var e3 := Read(w, 0xffff_8000_0000_0000 + e4 / 4096 * 4096 + address / 0x4000_0000 % 512 * 8);
      if !Present(e3) || Large(e3) then None else
        var e2 := Read(w, 0xffff_8000_0000_0000 + e3 / 4096 * 4096 + address / 0x20_0000 % 512 * 8);
        if !Present(e2) || !Large(e2) then None else Some(Granted(e4, e3, e2).Plus(address % 0x20_0000))
  }

  /** The same for the first address of page p, by way of the kernel's own index and entry addresses. */
  function Walk(w: EntryWords, root: nat, p: nat): Option<Mapping> {
    var e4 := Read(w, Slot(Base(root), Index4(p)));
    if !Present(e4) || Large(e4) then None else
      var e3 := Read(w, Slot(Base(e4), Index3(p)));
      if !Present(e3) || Large(e3) then None else
        var e2 := Read(w, Slot(Base(e3), Index2(p)));
        if !Present(e2) || !Large(e2) then None else Some(Granted(e4, e3, e2))
  }

  function Granted(e4: nat, e3: nat, e2: nat): Mapping {
    Mapping(e2 - e2 % PAGE, Writable(e4) && Writable(e3) && Writable(e2), ForUser(e4) && ForUser(e3) && ForUser(e2))
  }

  /** Physical page p for the kernel, to read and to write. */
  function Identity(p: nat): Mapping {
    Mapping(p * 0x20_0000, true, false)
  }

  /** The kernel's walk is the processor's, for every address of the page. */
  lemma WalkIsTranslation(w: EntryWords, root: nat, p: nat, offset: nat)
    requires offset < 0x20_0000
    ensures Translate(w, root, 0xffff_8000_0000_0000 + p * 0x20_0000 + offset) ==
      match Walk(w, root, p) case None => None case Some(x) => Some(x.Plus(offset))
  {
    var v := 0xffff_8000_0000_0000 + p * 0x20_0000;
    assert v == PAGE_OFFSET + p * PAGE;
    PlaceInPage(p, offset);
    SameField4(v, offset);
    SameField3(v, offset);
    hide Present, Large, Granted, Read;
    BaseIs(root);
    var e4 := Read(w, Slot(Base(root), Index4(p)));
    BaseIs(e4);
    BaseIs(Read(w, Slot(Base(e4), Index3(p))));
  }

  lemma BaseIs(entry: nat)
    ensures Base(entry) == entry / 4096 * 4096
  {
  }

  lemma PlaceInPage(p: nat, offset: nat)
    requires offset < 0x20_0000
    ensures var v := 0xffff_8000_0000_0000 + p * 0x20_0000;
      v % 0x20_0000 == 0 && (v + offset) % 0x20_0000 == offset && (v + offset) / 0x20_0000 == v / 0x20_0000
  {
    assert 0xffff_8000_0000_0000 + p * 0x20_0000 == (0x7ff_fc00_0000 + p) * 0x20_0000;
  }

  lemma SameField4(v: nat, offset: nat)
    requires v % 0x20_0000 == 0 && offset < 0x20_0000
    ensures (v + offset) / 0x80_0000_0000 == v / 0x80_0000_0000
  {
    var r := v % 0x80_0000_0000;
    assert r % 0x20_0000 == 0;
  }

  lemma SameField3(v: nat, offset: nat)
    requires v % 0x20_0000 == 0 && offset < 0x20_0000
    ensures (v + offset) / 0x4000_0000 == v / 0x4000_0000
  {
    var r := v % 0x4000_0000;
    assert r % 0x20_0000 == 0;
  }

  lemma IndexForm(p: nat)
    requires p < PAGES
    ensures Index4(p) == 256 + p / 0x4_0000 < 512 && Index3(p) == p / 512 % 512 && Index2(p) == p % 512
  {
    IndexForm4(p);
    IndexForm3(p);
    IndexForm2(p);
  }

  lemma IndexForm4(p: nat)
    requires p < PAGES
    ensures Index4(p) == 256 + p / 0x4_0000 < 512
  {
    var q, r := p / 0x4_0000, p % 0x4_0000;
    var v := PAGE_OFFSET + p * PAGE;
    assert v == (0x1ff_ff00 + q) * 0x80_0000_0000 + r * PAGE;
    assert v / 0x80_0000_0000 == 0x1ff_ff00 + q;
  }

  lemma IndexForm3(p: nat)
    ensures Index3(p) == p / 512 % 512
  {
    var q, r := p / 512, p % 512;
    var v := PAGE_OFFSET + p * PAGE;
    assert v == (0x3_fffe_0000 + q) * 0x4000_0000 + r * PAGE;
    assert v / 0x4000_0000 == 0x3_fffe_0000 + q;
  }

  lemma IndexForm2(p: nat)
    ensures Index2(p) == p % 512
  {
    var v := PAGE_OFFSET + p * PAGE;
    assert v / 0x20_0000 == 0x7ff_fc00_0000 + p;
  }

  /** No two pages share all three indexes. */
  lemma IndexesTellPages(p: nat, q: nat)
    requires p < PAGES && q < PAGES
    requires Index4(p) == Index4(q) && Index3(p) == Index3(q) && Index2(p) == Index2(q)
    ensures p == q
  {
    IndexForm(p);
    IndexForm(q);
    hide *;
    Recompose(p);
    Recompose(q);
  }

  lemma Recompose(p: nat)
    ensures p == p / 0x4_0000 * 0x4_0000 + p / 512 % 512 * 512 + p % 512
  {
    assert p / 512 / 512 == p / 0x4_0000;
  }

  lemma IndexRange(p: nat)
    requires p < PAGES
    ensures 256 <= Index4(p) < 512 && Index3(p) < 512 && Index2(p) < 512
  {
    IndexForm(p);
  }

  lemma PageAligned(p: nat)
    ensures p * PAGE % TABLE == 0 && p * PAGE % PAGE == 0
  {
    assert p * PAGE == p * 512 * TABLE;
  }

  /** Attribute bits leave the address of an aligned table or page alone, make the entry present, writable
      and the kernel's, and make one that leads to a page differ from one that leads to a table. */
  lemma EntryKeepsAddress(addr: nat, attr: nat)
    requires addr % TABLE == 0 && attr in {DIRECTORY, LARGE_PAGE}
    ensures Base(Entry(addr, attr)) == addr && Present(Entry(addr, attr)) && Writable(Entry(addr, attr)) && !ForUser(Entry(addr, attr))
    ensures attr == DIRECTORY ==> !Large(Entry(addr, attr))
    ensures attr == LARGE_PAGE ==> Large(Entry(addr, attr))
    ensures addr % PAGE == 0 ==> Entry(addr, attr) - Entry(addr, attr) % PAGE == addr
  {
    hide Entry, Base, Present, Writable, ForUser, Large;
    EntryIsSum(addr, attr);
    SumKeepsTable(addr, attr);
    SumKeepsPage(addr, attr);
    SumHasBits(addr + attr, attr);
  }

  lemma SumKeepsTable(addr: nat, attr: nat)
    requires addr % TABLE == 0 && attr < TABLE
    ensures (addr + attr) % TABLE == attr && Base(addr + attr) == addr
  {
    var q := addr / TABLE;
    assert addr + attr == TABLE * q + attr;
  }

  lemma SumKeepsPage(addr: nat, attr: nat)
    requires attr < TABLE
    ensures addr % PAGE == 0 ==> addr + attr - (addr + attr) % PAGE == addr
  {
    var q := addr / PAGE;
    assert addr % PAGE == 0 ==> addr + attr == PAGE * q + attr;
  }

  lemma SumHasBits(e: nat, attr: nat)
    requires e % TABLE == attr && attr in {DIRECTORY, LARGE_PAGE}
    ensures Present(e) && Writable(e) && !ForUser(e)
    ensures attr == DIRECTORY ==> !Large(e)
    ensures attr == LARGE_PAGE ==> Large(e)
  {
    LowBit(e);
  }

  lemma LowBit(e: nat)
    ensures e % 2 == e % TABLE % 2
  {
    var q, r := e / TABLE, e % TABLE;
    assert e == 2 * (2048 * q) + r;
  }

  lemma EntryIsSum(addr: nat, attr: nat)
    requires addr % TABLE == 0 && attr in {DIRECTORY, LARGE_PAGE}
    ensures Entry(addr, attr) == addr + attr
  {
    OrOfZero(attr);
    assert Base(addr) == addr;
  }

  lemma OrOfZero(attr: nat)
    requires attr in {DIRECTORY, LARGE_PAGE}
    ensures ((0 as bv12) | (attr as bv12)) as nat == attr
  {
    assert (0 as bv12) | (3 as bv12) == 3 as bv12;
    assert (0 as bv12) | (0x83 as bv12) == 0x83 as bv12;
  }

  lemma SlotsDistinct(b: nat, i: nat, c: nat, j: nat)
    requires b % TABLE == 0 && c % TABLE == 0 && i < 512 && j < 512 && Slot(b, i) == Slot(c, j)
    ensures b == c && i == j
  {
  }

  // ---------------------------------------------------------------- the tree

  /** Whose entries a table holds: the root, or the tables below entry i4, or below i4 and i3. */
  datatype Owner = Root | Third(i4: nat) | Second(i4: nat, i3: nat)

  /** The tables in use, by physical address. */
  type Tables = map<nat, Owner>

  /** An entry is empty, or leads, writably, to a table with this owner. */
  predicate Leads(w: EntryWords, ts: Tables, a: int, owner: Owner) {
    Read(w, a) == 0 || (IsDirectory(Read(w, a)) && Base(Read(w, a)) in ts && ts[Base(Read(w, a))] == owner)
  }

  predicate IsDirectory(entry: nat) {
    Present(entry) && Writable(entry) && !Large(entry)
  }

  predicate RootLeads(w: EntryWords, ts: Tables, root: nat) {
    forall i :: 256 <= i < 512 ==> Leads(w, ts, Slot(Base(root), i), Third(i))
  }

  predicate ThirdLeads(w: EntryWords, ts: Tables, b: nat)
    requires b in ts && ts[b].Third?
  {
    forall i :: 0 <= i < 512 ==> Leads(w, ts, Slot(b, i), Second(ts[b].i4, i))
  }

  predicate Inside(b: nat, a: int) {
    PAGE_OFFSET + b <= a < PAGE_OFFSET + b + TABLE
  }

  ghost predicate InSomeTable(ts: Tables, a: int) {
    exists b :: b in ts && Inside(b, a)
  }

  /** The kernel half of the address space: aligned tables, every entry above the lowest level empty
      or leading to a table of its own, and no entry outside the tables. */
  ghost predicate Tree(w: EntryWords, root: nat, ts: Tables) {
    && Base(root) in ts && ts[Base(root)] == Root
    && (forall b :: b in ts ==> b % TABLE == 0)
    && RootLeads(w, ts, root)
    && (forall b :: b in ts && ts[b].Third? ==> ThirdLeads(w, ts, b))
    && (forall a :: a in w ==> InSomeTable(ts, a))
  }

  /** A table lies in the boot data or is an object of the heap. */
  ghost predicate Stored(h: Heap, b: nat) {
    || PAGE_OFFSET + b + TABLE <= h.mem.endOfStruct
    || exists o :: Live(h.pools, o) && o.cls == TABLE_CLASS && Addr(o) == PAGE_OFFSET + b
  }

  ghost predicate AllStored(h: Heap, ts: Tables) {
    forall b :: b in ts ==> Stored(h, b)
  }

  /** The boot tables of head.S satisfy all this: entry 256 of the root leads to one third-level
      table, whose entry 0 leads to one second-level table. */
  lemma BootTables(w: EntryWords, h: Heap)
    requires PAGE_OFFSET + 0x10_4000 <= h.mem.endOfStruct
    requires forall i :: 256 < i < 512 ==> Read(w, Slot(0x10_1000, i)) == 0
    requires forall i :: 0 < i < 512 ==> Read(w, Slot(0x10_2000, i)) == 0
    requires Read(w, Slot(0x10_1000, 256)) == 0x10_2003 && Read(w, Slot(0x10_2000, 0)) == 0x10_3003
    requires forall a :: a in w ==> PAGE_OFFSET + 0x10_1000 <= a < PAGE_OFFSET + 0x10_4000
    ensures var ts := map[0x10_1000 := Root, 0x10_2000 := Third(256), 0x10_3000 := Second(256, 0)];
      Tree(w, 0x10_1000, ts) && AllStored(h, ts)
  {
    var ts := map[0x10_1000 := Root, 0x10_2000 := Third(256), 0x10_3000 := Second(256, 0)];
    forall i | 256 <= i < 512
      ensures Leads(w, ts, Slot(0x10_1000, i), Third(i))
    {
      assert i > 256 ==> Read(w, Slot(0x10_1000, i)) == 0;
    }
    forall a | a in w
      ensures InSomeTable(ts, a)
    {
      assert Inside(0x10_1000, a) || Inside(0x10_2000, a) || Inside(0x10_3000, a);
    }
  }

  // ---------------------------------------------------------------- inserting a page

  datatype Space = Space(words: EntryWords, heap: Heap)

  /** A table for an empty entry; false when kmalloc has none. */
  function Descend(s: Space, a: int): (r: (Space, bool))
    requires Shaped(s.heap.pools)
    ensures Shaped(r.0.heap.pools)
  {
    if Read(s.words, a) != 0 then (s, true)
    else
      var (h, o) := Kmalloc(s.heap, TABLE);
      if o.None? || o.value.cls >= CLASSES || Addr(o.value) < PAGE_OFFSET then (s.(heap := h), false)
      else (Space(s.words[a := Entry(Addr(o.value) - PAGE_OFFSET, DIRECTORY)], h), true)
  }

  /** The body of the inner loop of pagetable_init, for page p. */
  function MapPage(s: Space, root: nat, p: nat): (r: (Space, bool))
    requires Shaped(s.heap.pools)
    ensures Shaped(r.0.heap.pools)
  {
    var a4 := Slot(Base(root), Index4(p));
    var (s1, ok1) := Descend(s, a4);
    if !ok1 then (s1, false)
    else
      var a3 := Slot(Base(Read(s1.words, a4)), Index3(p));
      var (s2, ok2) := Descend(s1, a3);
      if !ok2 then (s2, false)
      else (s2.(words := s2.words[Slot(Base(Read(s2.words, a3)), Index2(p)) := Entry(p * PAGE, LARGE_PAGE)]), true)
  }

  /** Entry i of table b, and the owner its table must have. */
  predicate Upper(ts: Tables, root: nat, b: nat, i: nat, owner: Owner) {
    && i < 512 && b in ts
    && ((b == Base(root) && 256 <= i && owner == Third(i)) || (ts[b].Third? && owner == Second(ts[b].i4, i)))
  }

  /** A heap object for a table: aligned, and above the boot data. */
  lemma TableObject(h: Heap, o: Obj)
    requires Inv(h) && Live(h.pools, o) && o.cls == TABLE_CLASS
    ensures Addr(o) % TABLE == 0 && Addr(o) >= PAGE_OFFSET && Addr(o) >= h.mem.endOfStruct
    ensures PageOf(Addr(o)) == o.page && SlotOf(Addr(o), TABLE_CLASS) == o.slot
  {
    var k := LiveSlot(h, o);
    Aligned(o);
    AddressDecodes(o);
  }

  lemma NotStored(h: Heap, h': Heap, o: Obj)
    requires Inv(h) && Inv(h') && Live(h'.pools, o) && !Live(h.pools, o) && o.cls == TABLE_CLASS
    requires SamePlan(h.mem, h'.mem) && Addr(o) >= PAGE_OFFSET
    ensures !Stored(h, Addr(o) - PAGE_OFFSET)
  {
    hide Inv, Live, Addr, SlotOf, PageOf;
    TableObject(h', o);
    forall x | Live(h.pools, x) && x.cls == TABLE_CLASS
      ensures Addr(x) != Addr(o)
    {
      TableObject(h, x);
      assert x != o;
    }
  }

  lemma StaysStored(h: Heap, h': Heap, b: nat)
    requires Stored(h, b) && h'.mem.endOfStruct == h.mem.endOfStruct
    requires forall x :: Live(h.pools, x) ==> Live(h'.pools, x)
    ensures Stored(h', b)
  {
  }

  lemma SmallestForTable(c: nat)
    requires c < CLASSES && Size(c) >= TABLE && forall d :: 0 <= d < c ==> Size(d) < TABLE
    ensures c == TABLE_CLASS
  {
    assert Size(7) == TABLE && Size(6) < TABLE;
  }

  /** A table that kmalloc hands out is new: aligned, and apart from every table in use. */
  lemma TableIsNew(h: Heap, ts: Tables)
    requires Inv(h) && AllStored(h, ts)
    ensures var (h', r) := Kmalloc(h, TABLE);
      && Inv(h') && AllStored(h', ts) && SamePlan(h.mem, h'.mem)
      && (r.Some? ==>
            && r.value.cls == TABLE_CLASS && Addr(r.value) >= PAGE_OFFSET
            && var b := Addr(r.value) - PAGE_OFFSET;
            b % TABLE == 0 && b !in ts && Stored(h', b))
  {
    hide Inv, Kmalloc, Live, Addr, Exhausted, SamePlan, Size, Stored, IsMeta;
    KmallocOk(h, TABLE);
    var (h', r) := Kmalloc(h, TABLE);
    assert h'.mem.endOfStruct == h.mem.endOfStruct by { SameEnd(h.mem, h'.mem); }
    forall b | b in ts
      ensures Stored(h', b)
    {
      StaysStored(h, h', b);
    }
    if r.Some? {
      var o := r.value;
      SmallestForTable(o.cls);
      assert User(h'.pools, o);
      TableObject(h', o);
      NotStored(h, h', o);
      ObjectStored(h', o);
    }
  }

  lemma ObjectStored(h: Heap, o: Obj)
    requires Live(h.pools, o) && o.cls == TABLE_CLASS && Addr(o) >= PAGE_OFFSET
    ensures Stored(h, Addr(o) - PAGE_OFFSET)
  {
  }

  lemma SameEnd(m: Memory, m': Memory)
    requires SamePlan(m, m')
    ensures m'.endOfStruct == m.endOfStruct
  {
  }

  /** More tables, and the old ones as they were. */
  predicate Grown(ts: Tables, ts': Tables) {
    forall c :: c in ts ==> c in ts' && ts'[c] == ts[c]
  }

  predicate SameWalks(w: EntryWords, w': EntryWords, root: nat) {
    forall q: nat :: q < PAGES ==> Walk(w', root, q) == Walk(w, root, q)
  }

  /** The tables a walk passes are those of its page. */
  lemma WalkPath(w: EntryWords, root: nat, ts: Tables, p: nat)
    requires Tree(w, root, ts) && p < PAGES
    ensures Upper(ts, root, Base(root), Index4(p), Third(Index4(p)))
    ensures var e4 := Read(w, Slot(Base(root), Index4(p)));
      Present(e4) ==>
        && Base(e4) in ts && ts[Base(e4)] == Third(Index4(p))
        && Upper(ts, root, Base(e4), Index3(p), Second(Index4(p), Index3(p)))
        && var e3 := Read(w, Slot(Base(e4), Index3(p)));
        Present(e3) ==> Base(e3) in ts && ts[Base(e3)] == Second(Index4(p), Index3(p))
  {
    IndexRange(p);
    hide Index4, Index3, Base, Slot;
    var e4 := Read(w, Slot(Base(root), Index4(p)));
    assert Leads(w, ts, Slot(Base(root), Index4(p)), Third(Index4(p)));
    if Present(e4) {
      assert ThirdLeads(w, ts, Base(e4));
      assert Leads(w, ts, Slot(Base(e4), Index3(p)), Second(Index4(p), Index3(p)));
    }
  }

  /** Nothing is written in a table that is not in use. */
  lemma UnusedIsZero(w: EntryWords, root: nat, ts: Tables, b: nat, j: nat)
    requires Tree(w, root, ts) && b % TABLE == 0 && b !in ts && j < 512
    ensures Read(w, Slot(b, j)) == 0
  {
    forall c | c in ts
      ensures !Inside(c, Slot(b, j))
    {
      assert c % TABLE == 0 && c != b;
    }
    assert !InSomeTable(ts, Slot(b, j));
  }

  /** Writing entry i of table b changes no other entry of a table. */
  lemma WriteElsewhere(w: EntryWords, root: nat, ts: Tables, b: nat, i: nat, e: nat, c: nat, j: nat)
    requires Tree(w, root, ts) && b in ts && c % TABLE == 0 && i < 512 && j < 512 && (b != c || i != j)
    ensures Read(w[Slot(b, i) := e], Slot(c, j)) == Read(w, Slot(c, j))
  {
    if Slot(b, i) == Slot(c, j) {
      SlotsDistinct(b, i, c, j);
    }
  }

  /** An empty upper entry may be given a new table. */
  lemma NewTableTree(w: EntryWords, root: nat, ts: Tables, b: nat, i: nat, owner: Owner, nb: nat)
    requires Tree(w, root, ts) && Upper(ts, root, b, i, owner) && Read(w, Slot(b, i)) == 0
    requires nb % TABLE == 0 && nb !in ts
    ensures var w', ts' := w[Slot(b, i) := Entry(nb, DIRECTORY)], ts[nb := owner];
      Tree(w', root, ts') && Grown(ts, ts')
  {
    var e := Entry(nb, DIRECTORY);
    var w', ts' := w[Slot(b, i) := e], ts[nb := owner];
    EntryKeepsAddress(nb, DIRECTORY);
    hide Entry;
    assert Read(w', Slot(b, i)) == e;
    forall j | 256 <= j < 512
      ensures Leads(w', ts', Slot(Base(root), j), Third(j))
    {
      assert Leads(w, ts, Slot(Base(root), j), Third(j));
      if b != Base(root) || i != j {
        WriteElsewhere(w, root, ts, b, i, e, Base(root), j);
      }
    }
    forall c | c in ts' && ts'[c].Third?
      ensures ThirdLeads(w', ts', c)
    {
      NewTableThird(w, root, ts, b, i, owner, nb, c);
    }
    forall a | a in w'
      ensures InSomeTable(ts', a)
    {
      if a in w {
        assert InSomeTable(ts, a);
        var c :| c in ts && Inside(c, a);
        assert c in ts' && Inside(c, a);
      } else {
        assert b in ts' && Inside(b, a);
      }
    }
  }

  lemma NewTableThird(w: EntryWords, root: nat, ts: Tables, b: nat, i: nat, owner: Owner, nb: nat, c: nat)
    requires Tree(w, root, ts) && Upper(ts, root, b, i, owner) && Read(w, Slot(b, i)) == 0
    requires nb % TABLE == 0 && nb !in ts
    requires var ts' := ts[nb := owner]; c in ts' && ts'[c].Third?
    ensures ThirdLeads(w[Slot(b, i) := Entry(nb, DIRECTORY)], ts[nb := owner], c)
  {
    var e := Entry(nb, DIRECTORY);
    var w', ts' := w[Slot(b, i) := e], ts[nb := owner];
    EntryKeepsAddress(nb, DIRECTORY);
    hide Entry, RootLeads;
    forall j | 0 <= j < 512
      ensures Leads(w', ts', Slot(c, j), Second(ts'[c].i4, j))
    {
      if c == nb {
        UnusedIsZero(w, root, ts, nb, j);
        WriteElsewhere(w, root, ts, b, i, e, nb, j);
      } else {
        assert ThirdLeads(w, ts, c) && Leads(w, ts, Slot(c, j), Second(ts[c].i4, j));
        if b != c || i != j {
          WriteElsewhere(w, root, ts, b, i, e, c, j);
        }
      }
    }
  }

  /** The new table is empty, so no walk finds more or less than before. */
  lemma NewTableWalk(w: EntryWords, root: nat, ts: Tables, b: nat, i: nat, owner: Owner, nb: nat, q: nat)
    requires Tree(w, root, ts) && Upper(ts, root, b, i, owner) && Read(w, Slot(b, i)) == 0
    requires nb % TABLE == 0 && nb !in ts && q < PAGES
    ensures Walk(w[Slot(b, i) := Entry(nb, DIRECTORY)], root, q) == Walk(w, root, q)
  {
    var e := Entry(nb, DIRECTORY);
    var w' := w[Slot(b, i) := e];
    EntryKeepsAddress(nb, DIRECTORY);
    IndexRange(q);
    WalkPath(w, root, ts, q);
    hide Entry, Index4, Index3, Index2, Tree, Slot, Base;
    UnusedIsZero(w, root, ts, nb, Index3(q));
    UnusedIsZero(w, root, ts, nb, Index2(q));
    assert nb != b;
    WriteElsewhere(w, root, ts, b, i, e, nb, Index3(q));
    WriteElsewhere(w, root, ts, b, i, e, nb, Index2(q));
    var b4 := Base(root);
    TableAligned(w, root, ts, b4);
    var e4 := Read(w, Slot(b4, Index4(q)));
    if b == b4 && i == Index4(q) {
    } else {
      WriteElsewhere(w, root, ts, b, i, e, b4, Index4(q));
      if Present(e4) {
        var b3 := Base(e4);
        TableAligned(w, root, ts, b3);
        var e3 := Read(w, Slot(b3, Index3(q)));
        if b == b3 && i == Index3(q) {
        } else {
          WriteElsewhere(w, root, ts, b, i, e, b3, Index3(q));
          if Present(e3) {
            TableAligned(w, root, ts, Base(e3));
            RootIsRoot(w, root, ts);
            WriteElsewhere(w, root, ts, b, i, e, Base(e3), Index2(q));
          }
        }
      }
    }
  }

  lemma TableAligned(w: EntryWords, root: nat, ts: Tables, b: nat)
    requires Tree(w, root, ts) && b in ts
    ensures b % TABLE == 0
  {
  }

  lemma RootIsRoot(w: EntryWords, root: nat, ts: Tables)
    requires Tree(w, root, ts)
    ensures Base(root) in ts && ts[Base(root)] == Root
  {
  }

  ghost function WithTable(s: Space, ts: Tables, a: int, owner: Owner): Tables
    requires Shaped(s.heap.pools)
  {
    if Read(s.words, a) != 0 || !Descend(s, a).1 then ts else ts[Addr(Kmalloc(s.heap, TABLE).1.value) - PAGE_OFFSET := owner]
  }

  /** Everything the builder relies on. */
  ghost predicate Built(s: Space, root: nat, ts: Tables) {
    Inv(s.heap) && AllStored(s.heap, ts) && Tree(s.words, root, ts)
  }

  /** Filling an upper entry keeps the tree and every walk, and leaves the entry leading to its table. */
  lemma DescendOk(s: Space, root: nat, ts: Tables, b: nat, i: nat, owner: Owner)
    requires Built(s, root, ts) && Upper(ts, root, b, i, owner)
    ensures var (s', ok) := Descend(s, Slot(b, i));
      var ts' := WithTable(s, ts, Slot(b, i), owner);
      && Built(s', root, ts') && Grown(ts, ts') && SameWalks(s.words, s'.words, root) && SamePlan(s.heap.mem, s'.heap.mem)
      && (ok ==> Present(Read(s'.words, Slot(b, i))) && Leads(s'.words, ts', Slot(b, i), owner))
  {
    hide Inv, Kmalloc, Entry, Walk, SamePlan, Stored, Addr;
    var a := Slot(b, i);
    if Read(s.words, a) != 0 {
      UpperLeads(s.words, root, ts, b, i, owner);
      SamePlanSelf(s.heap.mem);
    } else {
      hide Tree;
      TableIsNew(s.heap, ts);
      var (h, o) := Kmalloc(s.heap, TABLE);
      if o.Some? {
        var nb := Addr(o.value) - PAGE_OFFSET;
        EntryKeepsAddress(nb, DIRECTORY);
        NewTableTree(s.words, root, ts, b, i, owner, nb);
        forall q: nat | q < PAGES
          ensures Walk(s.words[a := Entry(nb, DIRECTORY)], root, q) == Walk(s.words, root, q)
        {
          NewTableWalk(s.words, root, ts, b, i, owner, nb, q);
        }
      }
    }
  }

  lemma SamePlanSelf(m: Memory)
    ensures SamePlan(m, m)
  {
  }

  lemma UpperLeads(w: EntryWords, root: nat, ts: Tables, b: nat, i: nat, owner: Owner)
    requires Tree(w, root, ts) && Upper(ts, root, b, i, owner)
    ensures Leads(w, ts, Slot(b, i), owner)
  {
    if ts[b].Third? {
      assert ThirdLeads(w, ts, b);
    }
  }

  /** An entry of the lowest level is free to change. */
  lemma LastTree(w: EntryWords, root: nat, ts: Tables, b: nat, i: nat, e: nat)
    requires Tree(w, root, ts) && b in ts && ts[b].Second? && i < 512
    ensures Tree(w[Slot(b, i) := e], root, ts)
  {
    var w' := w[Slot(b, i) := e];
    forall j | 256 <= j < 512
      ensures Leads(w', ts, Slot(Base(root), j), Third(j))
    {
      assert Leads(w, ts, Slot(Base(root), j), Third(j));
      WriteElsewhere(w, root, ts, b, i, e, Base(root), j);
    }
    forall c | c in ts && ts[c].Third?
      ensures ThirdLeads(w', ts, c)
    {
      forall j | 0 <= j < 512
        ensures Leads(w', ts, Slot(c, j), Second(ts[c].i4, j))
      {
        assert ThirdLeads(w, ts, c) && Leads(w, ts, Slot(c, j), Second(ts[c].i4, j));
        WriteElsewhere(w, root, ts, b, i, e, c, j);
      }
    }
    forall a | a in w'
      ensures InSomeTable(ts, a)
    {
      assert a !in w ==> Inside(b, a);
    }
  }

  /** Writing the entry of page p in the table of its own range changes the walk of no other page. */
  lemma LastWalk(w: EntryWords, root: nat, ts: Tables, b: nat, e: nat, p: nat, q: nat)
    requires Tree(w, root, ts) && p < PAGES && q < PAGES && q != p
    requires b in ts && ts[b] == Second(Index4(p), Index3(p))
    ensures Walk(w[Slot(b, Index2(p)) := e], root, q) == Walk(w, root, q)
  {
    IndexRange(p);
    IndexRange(q);
    WalkPath(w, root, ts, q);
    RootIsRoot(w, root, ts);
    if Index4(p) == Index4(q) && Index3(p) == Index3(q) && Index2(p) == Index2(q) {
      IndexesTellPages(p, q);
    }
    hide Index4, Index3, Index2, Tree, Slot, Base;
    var i := Index2(p);
    TableAligned(w, root, ts, Base(root));
    WriteElsewhere(w, root, ts, b, i, e, Base(root), Index4(q));
    var e4 := Read(w, Slot(Base(root), Index4(q)));
    if Present(e4) {
      TableAligned(w, root, ts, Base(e4));
      WriteElsewhere(w, root, ts, b, i, e, Base(e4), Index3(q));
      var e3 := Read(w, Slot(Base(e4), Index3(q)));
      if Present(e3) {
        TableAligned(w, root, ts, Base(e3));
        WriteElsewhere(w, root, ts, b, i, e, Base(e3), Index2(q));
      }
    }
  }

  /** And the walk of p now ends at p. */
  lemma LastFound(w: EntryWords, root: nat, ts: Tables, p: nat)
    requires Tree(w, root, ts) && p < PAGES && Present(Read(w, Slot(Base(root), Index4(p))))
    requires Present(Read(w, Slot(Base(Read(w, Slot(Base(root), Index4(p)))), Index3(p))))
    ensures var b := Base(Read(w, Slot(Base(Read(w, Slot(Base(root), Index4(p)))), Index3(p))));
      && b in ts && ts[b] == Second(Index4(p), Index3(p))
      && Walk(w[Slot(b, Index2(p)) := Entry(p * PAGE, LARGE_PAGE)], root, p) == Some(Identity(p))
  {
    IndexRange(p);
    WalkPath(w, root, ts, p);
    RootIsRoot(w, root, ts);
    PageAligned(p);
    var e := Entry(p * PAGE, LARGE_PAGE);
    EntryKeepsAddress(p * PAGE, LARGE_PAGE);
    hide Index4, Index3, Index2, Tree, Slot, Base, Entry;
    var e4 := Read(w, Slot(Base(root), Index4(p)));
    var e3 := Read(w, Slot(Base(e4), Index3(p)));
    var b, i := Base(e3), Index2(p);
    TableAligned(w, root, ts, Base(root));
    TableAligned(w, root, ts, Base(e4));
    WriteElsewhere(w, root, ts, b, i, e, Base(root), Index4(p));
    WriteElsewhere(w, root, ts, b, i, e, Base(e4), Index3(p));
  }

  /** What inserting page p does to the walks. */
  predicate Inserted(w: EntryWords, w': EntryWords, root: nat, p: nat, ok: bool) {
    && (forall q: nat :: q < PAGES && q != p ==> Walk(w', root, q) == Walk(w, root, q))
    && Walk(w', root, p) == if ok then Some(Identity(p)) else Walk(w, root, p)
  }

  ghost function WithPath(s: Space, root: nat, ts: Tables, p: nat): Tables
    requires Shaped(s.heap.pools)
  {
    var a4 := Slot(Base(root), Index4(p));
    var (s1, ok1) := Descend(s, a4);
    var ts1 := WithTable(s, ts, a4, Third(Index4(p)));
    if !ok1 then ts1 else WithTable(s1, ts1, Slot(Base(Read(s1.words, a4)), Index3(p)), Second(Index4(p), Index3(p)))
  }

  /** Inserting a page: its walk leads to it, every other walk is as before, and the tree stays a tree. */
  lemma MapPageOk(s: Space, root: nat, ts: Tables, p: nat)
    requires Built(s, root, ts) && p < PAGES
    ensures var (s', ok) := MapPage(s, root, p);
      && Built(s', root, WithPath(s, root, ts, p)) && SamePlan(s.heap.mem, s'.heap.mem)
      && Inserted(s.words, s'.words, root, p, ok)
  {
    hide Index4, Index3, Index2, Tree, Slot, Base, Entry, Walk, Descend, Inv, Stored, SamePlan, Kmalloc, Shaped, WithTable, Leads;
    BuiltIs(s, root, ts);
    var i4, i3 := Index4(p), Index3(p);
    var a4 := Slot(Base(root), i4);
    WalkPath(s.words, root, ts, p);
    DescendOk(s, root, ts, Base(root), i4, Third(i4));
    var (s1, ok1) := Descend(s, a4);
    var ts1 := WithTable(s, ts, a4, Third(i4));
    if ok1 {
      BuiltIs(s1, root, ts1);
      WalkPath(s1.words, root, ts1, p);
      var b3 := Base(Read(s1.words, a4));
      DescendOk(s1, root, ts1, b3, i3, Second(i4, i3));
      var a3 := Slot(b3, i3);
      var (s2, ok2) := Descend(s1, a3);
      var ts2 := WithTable(s1, ts1, a3, Second(i4, i3));
      SamePlanChain(s.heap.mem, s1.heap.mem, s2.heap.mem);
      if ok2 {
        assert Read(s2.words, a4) == Read(s1.words, a4) by { UpperStays(s1, root, ts1, p); }
        LastFound(s2.words, root, ts2, p);
        IndexRange(p);
        var b := Base(Read(s2.words, a3));
        LastTree(s2.words, root, ts2, b, Index2(p), Entry(p * PAGE, LARGE_PAGE));
        forall q: nat | q < PAGES && q != p
          ensures Walk(MapPage(s, root, p).0.words, root, q) == Walk(s.words, root, q)
        {
          LastWalk(s2.words, root, ts2, b, Entry(p * PAGE, LARGE_PAGE), p, q);
        }
      }
    }
  }

  lemma BuiltIs(s: Space, root: nat, ts: Tables)
    requires Built(s, root, ts)
    ensures Inv(s.heap) && Shaped(s.heap.pools) && Tree(s.words, root, ts) && AllStored(s.heap, ts)
  {
  }

  lemma SamePlanChain(a: Memory, b: Memory, c: Memory)
    requires SamePlan(a, b) && SamePlan(b, c)
    ensures SamePlan(a, c)
  {
  }

  /** Filling the second entry leaves the first. */
  lemma UpperStays(s: Space, root: nat, ts: Tables, p: nat)
    requires Built(s, root, ts) && p < PAGES && Present(Read(s.words, Slot(Base(root), Index4(p))))
    ensures var a4 := Slot(Base(root), Index4(p));
      Read(Descend(s, Slot(Base(Read(s.words, a4)), Index3(p))).0.words, a4) == Read(s.words, a4)
  {
    hide Index4, Index3, Base, Slot, Entry, Kmalloc, Inv, Shaped, Tree, Built, Addr;
  }
}
