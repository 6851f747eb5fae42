/** The memory map on its way from the firmware to the kernel: the boot loader turns the UEFI
    descriptors into E820 entries and sorts them, and the kernel copies the entries it accepts. */
module E820 {
  import opened Options

  /** `struct E820` */
  datatype Entry = Entry(address: nat, length: nat, kind: nat)

  datatype UefiType =
    | ReservedMemoryType | LoaderCode | LoaderData | BootServicesCode | BootServicesData
    | RuntimeServicesCode | RuntimeServicesData | ConventionalMemory | UnusableMemory
    | ACPIReclaimMemory | ACPIMemoryNVS | MemoryMappedIO | MemoryMappedIOPortSpace | PalCode
    | PersistentMemory | UnknownType

  /** `EFI_MEMORY_DESCRIPTOR`; pages of 4 KB. */
  datatype Descriptor = Descriptor(kind: UefiType, start: nat, pages: nat)

  function EndOf(e: Entry): nat { e.address + e.length }

  function Bytes(d: Descriptor): nat { d.pages * 4096 }

  /** The E820 type of a descriptor; None for a type the loader does not know. */
  function KindOf(k: UefiType): Option<nat> {
    match k
    case ReservedMemoryType | MemoryMappedIO | MemoryMappedIOPortSpace | PalCode => Some(2)
    case UnusableMemory => Some(5)
    case ACPIReclaimMemory => Some(3)
    case LoaderCode | LoaderData | BootServicesCode | BootServicesData | RuntimeServicesCode
      | RuntimeServicesData | ConventionalMemory | PersistentMemory => Some(1)
    case ACPIMemoryNVS => Some(4)
    case UnknownType => None
  }

  /** One round of the conversion loop. */
  function MergeOne(es: seq<Entry>, d: Descriptor): seq<Entry> {
    if d.pages == 0 || KindOf(d.kind).None? then es
    else
      var kind := KindOf(d.kind).value;
      if es != [] && es[|es| - 1].kind == kind && d.start == EndOf(es[|es| - 1]) then
        var last := es[|es| - 1];
        es[|es| - 1 := last.(length := last.length + Bytes(d))]
      else es + [Entry(d.start, Bytes(d), kind)]
  }

  function MergeAll(ds: seq<Descriptor>): seq<Entry> {
    if ds == [] then [] else MergeOne(MergeAll(ds[..|ds| - 1]), ds[|ds| - 1])
  }

  /** The conversion loop of the boot loader. */
  method Convert(ds: seq<Descriptor>, entries: array<Entry>) returns (count: nat)
    requires |ds| <= entries.Length
    modifies entries
    ensures count <= entries.Length && entries[..count] == MergeAll(ds)
  {
    count := 0;
    var lastEnd := 0;
    for i := 0 to |ds|
      invariant count <= i && entries[..count] == MergeAll(ds[..i])
      invariant count > 0 ==> lastEnd == EndOf(entries[count - 1])
    {
      assert ds[..i + 1][..i] == ds[..i];
      var d := ds[i];
      if d.pages != 0 && KindOf(d.kind).Some? {
        var kind := KindOf(d.kind).value;
        ghost var es := entries[..count];
        if count > 0 && entries[count - 1].kind == kind && d.start == lastEnd {
          entries[count - 1] := entries[count - 1].(length := entries[count - 1].length + Bytes(d));
          lastEnd := lastEnd + Bytes(d);
          assert entries[..count] == MergeOne(es, d);
        } else {
          entries[count] := Entry(d.start, Bytes(d), kind);
          lastEnd := d.start + Bytes(d);
          count := count + 1;
          assert entries[..count] == es + [Entry(d.start, Bytes(d), kind)];
        }
      }
    }
    assert ds[..|ds|] == ds;
  }

  // ---------------------------------------------------------------- what an entry list means

  /** Kinds are optional here: None asks about every kind at once. */
  predicate OfKind(kind: nat, which: Option<nat>) {
    which == None || which == Some(kind)
  }

  predicate Covers(e: Entry, a: nat, which: Option<nat>) {
    OfKind(e.kind, which) && e.address <= a < EndOf(e)
  }

  predicate DescriptorCovers(d: Descriptor, a: nat, which: Option<nat>) {
    KindOf(d.kind).Some? && OfKind(KindOf(d.kind).value, which) && d.start <= a < d.start + Bytes(d)
  }

  /** How many entries cover an address. */
  function Cover(es: seq<Entry>, a: nat, which: Option<nat>): nat {
    if es == [] then 0 else Cover(es[..|es| - 1], a, which) + (if Covers(es[|es| - 1], a, which) then 1 else 0)
  }

  function DescriptorCover(ds: seq<Descriptor>, a: nat, which: Option<nat>): nat {
    if ds == [] then 0
    else DescriptorCover(ds[..|ds| - 1], a, which) + (if DescriptorCovers(ds[|ds| - 1], a, which) then 1 else 0)
  }

  function TotalBytes(es: seq<Entry>, kind: nat): nat {
    if es == [] then 0
    else TotalBytes(es[..|es| - 1], kind) + (if es[|es| - 1].kind == kind then es[|es| - 1].length else 0)
  }

  function DescriptorBytes(ds: seq<Descriptor>, kind: nat): nat {
    if ds == [] then 0
    else DescriptorBytes(ds[..|ds| - 1], kind) + (if KindOf(ds[|ds| - 1].kind) == Some(kind) then Bytes(ds[|ds| - 1]) else 0)
  }

  lemma MergeOneMeaning(es: seq<Entry>, d: Descriptor, a: nat, which: Option<nat>, kind: nat)
    ensures Cover(MergeOne(es, d), a, which) == Cover(es, a, which) + (if DescriptorCovers(d, a, which) then 1 else 0)
    ensures TotalBytes(MergeOne(es, d), kind)
         == TotalBytes(es, kind) + (if KindOf(d.kind) == Some(kind) then Bytes(d) else 0)
  {
    var r := MergeOne(es, d);
    if r != es {
      if |r| == |es| {
        assert r[..|es| - 1] == es[..|es| - 1];
      } else {
        assert r[..|es|] == es;
      }
    }
  }

  /** The conversion preserves meaning: for every address, and for every kind as well as for all
      together, as many entries cover it as recognised descriptors did, and no byte of any kind is
      gained or lost. */
  lemma {:induction false} MergeMeaning(ds: seq<Descriptor>, a: nat, which: Option<nat>, kind: nat)
    ensures Cover(MergeAll(ds), a, which) == DescriptorCover(ds, a, which)
    ensures TotalBytes(MergeAll(ds), kind) == DescriptorBytes(ds, kind)
  {
    if ds != [] {
      MergeMeaning(ds[..|ds| - 1], a, which, kind);
      MergeOneMeaning(MergeAll(ds[..|ds| - 1]), ds[|ds| - 1], a, which, kind);
    }
  }

  /** Some descriptor of one of these types holds the address, in pages of 4096 bytes. */
  predicate Holds(ds: seq<Descriptor>, types: set<UefiType>, a: nat) {
    exists i :: 0 <= i < |ds| && HeldBy(ds[i], types, a)
  }

  predicate HeldBy(d: Descriptor, types: set<UefiType>, a: nat) {
    d.kind in types && d.start <= a < d.start + 4096 * d.pages
  }

  lemma {:induction false} SomeDescriptor(ds: seq<Descriptor>, a: nat, which: Option<nat>)
    ensures DescriptorCover(ds, a, which) > 0 <==> exists i :: 0 <= i < |ds| && DescriptorCovers(ds[i], a, which)
  {
    if ds != [] {
      var n := |ds| - 1;
      SomeDescriptor(ds[..n], a, which);
      assert forall i :: 0 <= i < n ==> ds[..n][i] == ds[i];
    }
  }

  lemma KindIsOfType(d: Descriptor, a: nat)
    ensures DescriptorCovers(d, a, Some(1)) <==> HeldBy(d, {LoaderCode, LoaderData, BootServicesCode, BootServicesData,
      RuntimeServicesCode, RuntimeServicesData, ConventionalMemory, PersistentMemory}, a)
    ensures DescriptorCovers(d, a, Some(2)) <==> HeldBy(d, {ReservedMemoryType, MemoryMappedIO, MemoryMappedIOPortSpace, PalCode}, a)
    ensures DescriptorCovers(d, a, Some(3)) <==> HeldBy(d, {ACPIReclaimMemory}, a)
    ensures DescriptorCovers(d, a, Some(4)) <==> HeldBy(d, {ACPIMemoryNVS}, a)
    ensures DescriptorCovers(d, a, Some(5)) <==> HeldBy(d, {UnusableMemory}, a)
    ensures forall kind: nat :: kind == 0 || kind > 5 ==> !DescriptorCovers(d, a, Some(kind))
  {
  }

  /** What the entries say of an address, in the firmware's own types: it is RAM, reserved, ACPI memory
      to reclaim, ACPI memory to keep, or unusable exactly when a descriptor of such a type holds it. */
  lemma MapKinds(ds: seq<Descriptor>, a: nat)
    ensures Cover(MergeAll(ds), a, Some(1)) > 0 <==> Holds(ds, {LoaderCode, LoaderData, BootServicesCode, BootServicesData,
      RuntimeServicesCode, RuntimeServicesData, ConventionalMemory, PersistentMemory}, a)
    ensures Cover(MergeAll(ds), a, Some(2)) > 0
       <==> Holds(ds, {ReservedMemoryType, MemoryMappedIO, MemoryMappedIOPortSpace, PalCode}, a)
    ensures Cover(MergeAll(ds), a, Some(3)) > 0 <==> Holds(ds, {ACPIReclaimMemory}, a)
    ensures Cover(MergeAll(ds), a, Some(4)) > 0 <==> Holds(ds, {ACPIMemoryNVS}, a)
    ensures Cover(MergeAll(ds), a, Some(5)) > 0 <==> Holds(ds, {UnusableMemory}, a)
    ensures forall kind: nat :: kind == 0 || kind > 5 ==> Cover(MergeAll(ds), a, Some(kind)) == 0
  {
    forall i | 0 <= i < |ds|
    {
      KindIsOfType(ds[i], a);
    }
    forall kind: nat
      ensures Cover(MergeAll(ds), a, Some(kind)) > 0 <==> exists i :: 0 <= i < |ds| && DescriptorCovers(ds[i], a, Some(kind))
    {
      MergeMeaning(ds, a, Some(kind), kind);
      SomeDescriptor(ds, a, Some(kind));
    }
  }

  predicate Tight(es: seq<Entry>) {
    && (forall i :: 0 <= i < |es| ==> es[i].length > 0)
    && (forall i :: 0 < i < |es| && es[i].kind == es[i - 1].kind ==> es[i].address != EndOf(es[i - 1]))
  }

  /** Every entry holds at least one byte, and two neighbours of the same kind never touch. */
  lemma {:induction false} MergeIsTight(ds: seq<Descriptor>)
    ensures Tight(MergeAll(ds))
  {
    if ds != [] {
      MergeIsTight(ds[..|ds| - 1]);
    }
  }

  // ---------------------------------------------------------------- sorting

  predicate Ascending(es: seq<Entry>) {
    forall i, j :: 0 <= i < j < |es| ==> es[i].address <= es[j].address
  }

  /** The exchange sort of the boot loader. */
  method SortByAddress(entries: array<Entry>, count: nat)
    requires count <= entries.Length
    modifies entries
    ensures Ascending(entries[..count])
    ensures multiset(entries[..count]) == multiset(old(entries[..count]))
    ensures entries[count..] == old(entries[count..])
  {
    ghost var all, rest := multiset(entries[..count]), entries[count..];
    var i := 0;
    while i < count
      invariant 0 <= i <= count
      invariant Leads(entries[..count], i)
      invariant multiset(entries[..count]) == all && entries[count..] == rest
    {
      ExchangePass(entries, count, i);
      i := i + 1;
    }
  }

  /** The inner loop: brings the lowest remaining address to position i. */
  method ExchangePass(entries: array<Entry>, count: nat, i: nat)
    requires i < count <= entries.Length && Leads(entries[..count], i)
    modifies entries
    ensures Leads(entries[..count], i + 1)
    ensures multiset(entries[..count]) == multiset(old(entries[..count]))
    ensures entries[count..] == old(entries[count..])
  {
    var j := i + 1;
    while j < count
      invariant i < j <= count
      invariant Leads(entries[..count], i) && LowestUpTo(entries[..count], i, j)
      invariant multiset(entries[..count]) == multiset(old(entries[..count]))
      invariant entries[count..] == old(entries[count..])
    {
      ExchangeKeeps(entries[..count], i, j);
      if entries[i].address > entries[j].address {
        Swap(entries, count, i, j);
      }
      j := j + 1;
    }
    LowestLeads(entries[..count], i);
  }

  /** Entry i has the lowest address of those from i up to j. */
  predicate LowestUpTo(es: seq<Entry>, i: nat, j: nat) {
    i < |es| && forall l :: i < l < j && l < |es| ==> es[i].address <= es[l].address
  }

  lemma ExchangeKeeps(es: seq<Entry>, i: nat, j: nat)
    requires i < j < |es| && Leads(es, i) && LowestUpTo(es, i, j)
    ensures var r := if es[i].address > es[j].address then es[i := es[j]][j := es[i]] else es;
      Leads(r, i) && LowestUpTo(r, i, j + 1)
  {
  }

  lemma LowestLeads(es: seq<Entry>, i: nat)
    requires i < |es| && Leads(es, i) && LowestUpTo(es, i, |es|)
    ensures Leads(es, i + 1)
  {
  }

  /** The first n entries are in place: nothing after one of them has a lower address. */
  predicate Leads(es: seq<Entry>, n: nat) {
    forall k, l :: 0 <= k < n && k < l < |es| ==> es[k].address <= es[l].address
  }

  method Swap(entries: array<Entry>, count: nat, i: nat, j: nat)
    requires i < j < count <= entries.Length
    modifies entries
    ensures entries[..count] == old(entries[..count])[i := old(entries[j])][j := old(entries[i])]
    ensures multiset(entries[..count]) == multiset(old(entries[..count]))
    ensures entries[count..] == old(entries[count..])
  {
    ghost var es := entries[..count];
    entries[i], entries[j] := entries[j], entries[i];
    assert entries[..count] == es[i := es[j]][j := es[i]];
  }

  lemma CoverAppend(es: seq<Entry>, e: Entry, a: nat, which: Option<nat>)
    ensures Cover(es + [e], a, which) == Cover(es, a, which) + (if Covers(e, a, which) then 1 else 0)
  {
    assert (es + [e])[..|es|] == es;
  }

  lemma {:induction false} CoverRemove(es: seq<Entry>, i: nat, a: nat, which: Option<nat>)
    requires i < |es|
    ensures Cover(es, a, which) == Cover(es[..i] + es[i + 1..], a, which) + (if Covers(es[i], a, which) then 1 else 0)
    decreases |es|
  {
    var n := |es| - 1;
    var rest := es[..i] + es[i + 1..];
    if i == n {
      assert rest == es[..n];
    } else {
      CoverRemove(es[..n], i, a, which);
      assert rest == (es[..n][..i] + es[..n][i + 1..]) + [es[n]];
      CoverAppend(es[..n][..i] + es[..n][i + 1..], es[n], a, which);
    }
  }

  /** Reordering does not change coverage. */
  lemma {:induction false} CoverOfPermutation(es: seq<Entry>, fs: seq<Entry>, a: nat, which: Option<nat>)
    requires multiset(es) == multiset(fs)
    ensures Cover(es, a, which) == Cover(fs, a, which)
    decreases |es|
  {
    if es == [] {
      assert |multiset(fs)| == 0;
    } else {
      var n := |es| - 1;
      assert es[n] in multiset(fs);
      var i :| 0 <= i < |fs| && fs[i] == es[n];
      RestOfPermutation(es, fs, i);
      CoverOfPermutation(es[..n], fs[..i] + fs[i + 1..], a, which);
      CoverRemove(fs, i, a, which);
    }
  }

  lemma RestOfPermutation(es: seq<Entry>, fs: seq<Entry>, i: nat)
    requires multiset(es) == multiset(fs) && es != [] && i < |fs| && fs[i] == es[|es| - 1]
    ensures multiset(es[..|es| - 1]) == multiset(fs[..i] + fs[i + 1..])
  {
    var n := |es| - 1;
    AllButOne(es, n);
    AllButOne(fs, i);
    assert es[..n] + es[n + 1..] == es[..n];
  }

  lemma AllButOne(es: seq<Entry>, i: nat)
    requires i < |es|
    ensures multiset(es[..i] + es[i + 1..]) == multiset(es) - multiset{es[i]}
  {
    assert es == es[..i] + [es[i]] + es[i + 1..];
  }

  // ---------------------------------------------------------------- non-overlap

  /** Every address is covered at most once. */
  ghost predicate NoOverlap(es: seq<Entry>) {
    forall a: nat :: Cover(es, a, None) <= 1
  }

  ghost predicate DescriptorsApart(ds: seq<Descriptor>) {
    forall a: nat :: DescriptorCover(ds, a, None) <= 1
  }

  /** Every entry ends before the next ones begin. */
  predicate Separated(es: seq<Entry>) {
    forall i, j :: 0 <= i < j < |es| ==> EndOf(es[i]) <= es[j].address
  }

  lemma {:induction false} CoverOnce(es: seq<Entry>, i: nat, a: nat, which: Option<nat>)
    requires i < |es| && Covers(es[i], a, which)
    ensures Cover(es, a, which) >= 1
    decreases |es|
  {
    if i < |es| - 1 {
      CoverOnce(es[..|es| - 1], i, a, which);
    }
  }

  lemma {:induction false} CoverTwice(es: seq<Entry>, i: nat, j: nat, a: nat)
    requires i < j < |es| && Covers(es[i], a, None) && Covers(es[j], a, None)
    ensures Cover(es, a, None) >= 2
    decreases |es|
  {
    if j == |es| - 1 {
      CoverOnce(es[..|es| - 1], i, a, None);
    } else {
      CoverTwice(es[..|es| - 1], i, j, a);
    }
  }

  /** In an ascending list without overlap or empty entries every entry ends before the next begins,
      so the end of the last entry is the end of memory. */
  lemma LastEndsLast(es: seq<Entry>)
    requires Ascending(es) && NoOverlap(es) && forall e :: e in es ==> e.length > 0
    ensures Separated(es)
    ensures forall i :: 0 <= i < |es| ==> EndOf(es[i]) <= EndOf(es[|es| - 1])
  {
    forall i, j | 0 <= i < j < |es|
      ensures EndOf(es[i]) <= es[j].address
    {
      assert es[i] in es && es[j] in es;
      if es[j].address < EndOf(es[i]) {
        CoverTwice(es, i, j, es[j].address);
      }
    }
  }

  /** What the boot loader hands over: for firmware descriptors that do not overlap, the sorted list
      covers exactly what they covered, kind by kind, holds as RAM what they call memory, is separated,
      and ends with the end of memory. */
  lemma LoaderMap(ds: seq<Descriptor>, es: seq<Entry>)
    requires DescriptorsApart(ds)
    requires multiset(es) == multiset(MergeAll(ds)) && Ascending(es)
    ensures forall a, which :: Cover(es, a, which) == DescriptorCover(ds, a, which)
    ensures forall a: nat :: Cover(es, a, Some(1)) > 0 <==> Holds(ds, {LoaderCode, LoaderData, BootServicesCode,
      BootServicesData, RuntimeServicesCode, RuntimeServicesData, ConventionalMemory, PersistentMemory}, a)
    ensures Separated(es)
    ensures forall i :: 0 <= i < |es| ==> EndOf(es[i]) <= EndOf(es[|es| - 1])
  {
    forall a: nat, which
      ensures Cover(es, a, which) == DescriptorCover(ds, a, which)
    {
      MergeMeaning(ds, a, which, 0);
      CoverOfPermutation(es, MergeAll(ds), a, which);
    }
    forall a: nat
      ensures Cover(es, a, Some(1)) > 0 <==> Holds(ds, {LoaderCode, LoaderData, BootServicesCode, BootServicesData,
        RuntimeServicesCode, RuntimeServicesData, ConventionalMemory, PersistentMemory}, a)
    {
      MapKinds(ds, a);
      CoverOfPermutation(es, MergeAll(ds), a, Some(1));
    }
    forall e | e in es
      ensures e.length > 0
    {
      MergeIsTight(ds);
      assert e in multiset(es);
      assert e in MergeAll(ds);
    }
    LastEndsLast(es);
  }

  // ---------------------------------------------------------------- the kernel's copy

  /** An entry the kernel stops at: a kind outside 1 to 4, or no length. */
  predicate Rejected(e: Entry) {
    e.kind > 4 || e.kind < 1 || e.length == 0
  }

  /** init_memory records entry after entry and looks ahead: the first entry is taken unseen, and
      the first rejected one after it ends the list. */
  function Recorded(es: seq<Entry>, n: nat): (r: nat)
    requires n <= |es|
    ensures n <= r <= |es|
    decreases |es| - n
  {
    if n == |es| || (n > 0 && Rejected(es[n])) then n else Recorded(es, n + 1)
  }

  /** The kernel's list is the longest prefix whose entries after the first are all acceptable. */
  lemma {:induction false} RecordedIsPrefix(es: seq<Entry>, n: nat)
    requires n <= |es| && forall i :: 0 < i < n ==> 1 <= es[i].kind <= 4 && es[i].length > 0
    ensures forall i :: 0 < i < Recorded(es, n) ==> 1 <= es[i].kind <= 4 && es[i].length > 0
    ensures 0 < Recorded(es, n) < |es| ==> var e := es[Recorded(es, n)]; e.kind < 1 || e.kind > 4 || e.length == 0
    ensures Recorded(es, n) == |es| <==> forall i :: 0 < i < |es| ==> 1 <= es[i].kind <= 4 && es[i].length > 0
    decreases |es| - n
  {
    if n < |es| && !(n > 0 && Rejected(es[n])) {
      RecordedIsPrefix(es, n + 1);
    }
  }

  /** The copy loop of init_memory, for a table with room for what it copies. */
  method Record(es: seq<Entry>, table: array<Entry>) returns (count: nat)
    requires Recorded(es, 0) <= table.Length
    modifies table
    ensures count == Recorded(es, 0) && table[..count] == es[..count]
  {
    var i := 0;
    while i < |es|
      invariant 0 <= i <= |es| && Recorded(es, 0) == Recorded(es, i)
      invariant i <= table.Length && table[..i] == es[..i]
      invariant i > 0 && i < |es| ==> !Rejected(es[i])
    {
      table[i] := es[i];
      i := i + 1;
      if i < |es| && Rejected(es[i]) {
        return i;
      }
    }
    return i;
  }
}
