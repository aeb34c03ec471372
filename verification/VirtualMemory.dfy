/**
 An address space: a four-level radix tree of 64-bit entries in physical memory, whose tables come from the
 page allocator. It is proved against the plain map from virtual page numbers to page-table entries.
 */
module VirtualMemory {
  import opened MachineBytes
  import opened Options
  import opened Powers
  import opened Sequences
  import opened Sets
  import opened Blocks
  import opened Buddy
  import opened PageAllocation
  import opened PhysicalMemory

  const VA_SPACE := 0x1_0000_0000_0000
  /** The pages of the lower half of the address space. */
  const USER_PAGES := 0x8_0000_0000
  /** The kernel's window onto physical memory is 4 GB. */
  const MAX_PAGES := 0x10_0000

  datatype MappingFlags = MappingFlags(present: bool, user: bool, writable: bool)

  /** What a page-table entry says. */
  datatype Pte = Pte(frame: nat, present: bool, writable: bool, user: bool)

  // ---------- addresses ----------

  /** The page number of a virtual address: bits 12 to 47. */
  function PageOf(va: nat): nat { va % VA_SPACE / PAGE_SIZE }

  predicate UserHalf(va: nat) { PageOf(va) < USER_PAGES }

  /** The four nine-bit table indices of a virtual address. */
  function TableIndices(va: nat): (nat, nat, nat, nat) {
    (va / 0x80_0000_0000 % ENTRIES, va / 0x4000_0000 % ENTRIES, va / 0x20_0000 % ENTRIES, va / 0x1000 % ENTRIES)
  }

  /** A page number with its h + 1 lowest nine-bit digits dropped. */
  function Drop(v: nat, h: nat): nat {
    if h == 0 then v / ENTRIES else Drop(v, h - 1) / ENTRIES
  }

  /** The indices are the digits of the page number, to the base 512. */
  lemma IndexDigits(va: nat)
    ensures var (pm, pdp, pd, pt), v := TableIndices(va), PageOf(va);
      && pm < ENTRIES && pdp < ENTRIES && pd < ENTRIES && pt < ENTRIES
      && v == Drop(v, 0) * ENTRIES + pt && Drop(v, 0) == Drop(v, 1) * ENTRIES + pd
      && Drop(v, 1) == Drop(v, 2) * ENTRIES + pdp && Drop(v, 2) == pm && (UserHalf(va) <==> pm < 256)
  {
    var p := va / PAGE_SIZE;
    var v := PageOf(va);
    DivDiv(va, PAGE_SIZE, 512);
    DivDiv(va, 0x20_0000, 512);
    DivDiv(va, 0x4000_0000, 512);
    LowDigits(va, PAGE_SIZE, 0x10_0000_0000);
    LowDigits(p, 512, 0x800_0000);
    LowDigits(p / 512, 512, 0x4_0000);
    LowDigits(p / 512 / 512, 512, 0x200);
    assert Drop(v, 0) == v / 512;
    assert Drop(v, 1) == v / 512 / 512;
    assert Drop(v, 2) == v / 512 / 512 / 512;
  }

  // ---------- entries ----------

  function BaseAddress(w: nat): nat { w - w % PAGE_SIZE }

  function WithBase(w: nat, a: nat): nat { w % PAGE_SIZE + BaseAddress(a) }

  predicate HasFlag(w: nat, bit: nat)
    requires bit > 0
  {
    w / bit % 2 == 1
  }

  function WithFlag(w: nat, bit: nat): nat
    requires bit > 0
  {
    if HasFlag(w, bit) then w else w + bit
  }

  const PRESENT := 1
  const WRITABLE := 2
  const ALLOW_USER := 4

  /** The entry word that says p. */
  function PteWord(p: Pte): nat {
    p.frame * PAGE_SIZE + (if p.present then PRESENT else 0) + (if p.writable then WRITABLE else 0)
      + if p.user then ALLOW_USER else 0
  }

  lemma PteBits(p: Pte)
    ensures BaseAddress(PteWord(p)) == p.frame * PAGE_SIZE
    ensures HasFlag(PteWord(p), PRESENT) <==> p.present
    ensures WithFlag(PteWord(p), PRESENT) == PteWord(p.(present := true))
    ensures WithFlag(PteWord(p), WRITABLE) == PteWord(p.(writable := true))
    ensures WithFlag(PteWord(p), ALLOW_USER) == PteWord(p.(user := true))
    ensures var w := PteWord(p);
            && (w % 2 == 1 <==> p.present) && (w / 2 % 2 == 1 <==> p.writable) && (w / 4 % 2 == 1 <==> p.user)
            && w / 4096 == p.frame && w % 4096 < 8
  {
    QuotientOf(PteWord(p), 4096, p.frame, PteWord(p) - p.frame * PAGE_SIZE);
    LowBits(p.frame, PteWord(p) - p.frame * PAGE_SIZE);
  }

  lemma LowBits(f: nat, low: nat)
    requires low < 8
    ensures var w := f * PAGE_SIZE + low;
            w % PAGE_SIZE == low && w % 2 == low % 2 && w / 2 % 2 == low / 2 % 2 && w / 4 % 2 == low / 4
  {
    var w := f * PAGE_SIZE + low;
    QuotientOf(w, PAGE_SIZE, f, low);
    QuotientOf(w, 2, f * 2048 + low / 2, low % 2);
    QuotientOf(w / 2, 2, f * 1024 + low / 4, low / 2 % 2);
    QuotientOf(w, 4, f * 1024 + low / 4, low % 4);
    QuotientOf(w / 4, 2, f * 512, low / 4);
  }

  /** Replacing the base keeps the flags. */
  lemma PteWithBase(p: Pte, a: nat)
    ensures WithBase(PteWord(p), a) == PteWord(p.(frame := a / PAGE_SIZE))
  {
    LowBits(p.frame, PteWord(p) - p.frame * PAGE_SIZE);
  }

  lemma PteRange(p: Pte, n: nat)
    requires p.frame < n
    ensures PteWord(p) < n * PAGE_SIZE
  {
  }

  lemma RemappedFrame(p: Pte, pa: nat, flags: MappingFlags)
    requires pa < SIZE_LIMIT
    ensures Remapped(p, pa, flags).frame < 0x10_0000_0000_0000
    ensures flags == MappingFlags(true, true, true) ==> Remapped(p, pa, flags) == Pte(pa / PAGE_SIZE, true, true, true)
  {
  }

  /** The entry after mapping pa: the base is replaced; flags are only ever added. */
  function Remapped(p: Pte, pa: nat, flags: MappingFlags): Pte {
    Pte(pa / PAGE_SIZE, p.present || flags.present, p.writable || flags.writable, p.user || flags.user)
  }

  const ABSENT := Pte(0, false, false, false)

  /**
   The page of va now leads to the page of pa, if the entry is present, and every other address where it led before;
   flags have been added to those the page had.
   */
  ghost predicate MapsTo(pages: map<nat, Pte>, pages': map<nat, Pte>, va: nat, pa: nat, flags: MappingFlags) {
    var p, p' := PteOf(pages, PageOf(va)), PteOf(pages', PageOf(va));
    && (p'.present <==> p.present || flags.present)
    && (p'.writable <==> p.writable || flags.writable)
    && (p'.user <==> p.user || flags.user)
    && (forall x: nat {:trigger Translated(pages', x)} :: PageOf(x) == PageOf(va) && p'.present ==>
          Translated(pages', x) == Some(pa / 4096 * 4096 + x % 4096))
    && (forall x: nat {:trigger Translated(pages', x)} :: PageOf(x) != PageOf(va) ==>
          Translated(pages', x) == Translated(pages, x))
  }

  lemma RemappedMapsTo(pages: map<nat, Pte>, va: nat, pa: nat, flags: MappingFlags)
    ensures MapsTo(pages, pages[PageOf(va) := Remapped(PteOf(pages, PageOf(va)), pa, flags)], va, pa, flags)
  {
    hide PageOf;
  }

  /** The pages of an address space that does not wrap. */
  lemma PageBounds(va: nat)
    requires va < 0x1_0000_0000_0000
    ensures PageOf(va) * 4096 <= va < PageOf(va) * 4096 + 4096
    ensures UserHalf(va) <==> va < 0x8000_0000_0000
  {
  }

  // ---------- the tree of tables ----------

  /** The table of height h for the pages whose numbers, without their h + 1 lowest digits, are prefix. */
  datatype Node = Node(h: nat, prefix: nat)

  const ROOT := Node(3, 0)

  function Child(n: Node, i: nat): Node
    requires n.h > 0
  {
    Node(n.h - 1, n.prefix * ENTRIES + i)
  }

  function Parent(n: Node): Node { Node(n.h + 1, n.prefix / ENTRIES) }

  lemma ChildFacts(n: Node, i: nat)
    requires n.h > 0 && i < ENTRIES
    ensures Parent(Child(n, i)) == n && Child(n, i).h == n.h - 1 && (n == ROOT && i < 256 ==> Child(n, i).prefix < 256)
    ensures forall m: Node, j: nat :: m.h > 0 && j < ENTRIES && Child(m, j) == Child(n, i) ==> m == n && j == i
  {
  }

  /** The entries of the upper half of the root belong to the kernel. */
  predicate UserEntry(n: Node, i: nat) {
    i < ENTRIES && (n.h == 3 ==> i < 256)
  }

  /** The page that entry i of the lowest-level table n is for. */
  function PageAt(n: Node, i: nat): nat { n.prefix * ENTRIES + i }

  function PteOf(pages: map<nat, Pte>, v: nat): Pte {
    if v in pages then pages[v] else ABSENT
  }

  /** What a mapping makes of an address. */
  function Translated(pages: map<nat, Pte>, va: nat): Option<nat> {
    var p := PteOf(pages, PageOf(va));
    if p.present then Some(p.frame * PAGE_SIZE + va % PAGE_SIZE) else None
  }

  /** The word that entry i of table n must hold. */
  ghost function EntryWord(table: map<Node, nat>, pages: map<nat, Pte>, n: Node, i: nat): nat {
    if n.h == 0 then PteWord(PteOf(pages, PageAt(n, i)))
    else if Child(n, i) in table then PteWord(Pte(table[Child(n, i)], true, true, true))
    else 0
  }

  /** Where there is no table there are no tables below it and no pages. */
  ghost predicate Bare(table: map<Node, nat>, pages: map<nat, Pte>, c: Node) {
    && (c.h > 0 ==> forall j :: 0 <= j < ENTRIES ==> Child(c, j) !in table)
    && (c.h == 0 ==> forall j :: 0 <= j < ENTRIES ==> PageAt(c, j) !in pages)
  }

  /** A new table below entry i of n changes what that entry must hold, and no other. */
  lemma LinkedWords(table: map<Node, nat>, pages: map<nat, Pte>, n: Node, i: nat, pgd: nat, m: Node, j: nat)
    requires n.h > 0 && i < ENTRIES && j < ENTRIES && Bare(table, pages, Child(n, i)) && Child(n, i) !in table
    ensures var table' := table[Child(n, i) := pgd];
            EntryWord(table', pages, m, j) ==
              if m == n && j == i then PteWord(Pte(pgd, true, true, true))
              else if m == Child(n, i) then 0
              else EntryWord(table, pages, m, j)
  {
    ChildFacts(n, i);
    assert PteWord(ABSENT) == 0;
  }

  /** Mapping a page changes what its own entry must hold, and no other. */
  lemma LeafWords(table: map<Node, nat>, pages: map<nat, Pte>, n: Node, i: nat, p: Pte, m: Node, j: nat)
    requires n.h == 0 && i < ENTRIES && j < ENTRIES
    ensures EntryWord(table, pages[PageAt(n, i) := p], m, j) ==
            if m == n && j == i then PteWord(p) else EntryWord(table, pages, m, j)
  {
  }

  lemma EmptyWord(table: map<Node, nat>, pages: map<nat, Pte>, n: Node, i: nat)
    requires n.h > 0 && Child(n, i) !in table
    ensures EntryWord(table, pages, n, i) == 0
  {
  }

  // ---------- the tables a mapping needs ----------

  /** The tables below the root on the way to page v. */
  ghost function Path(v: nat): set<Node> {
    {Node(2, Drop(v, 2)), Node(1, Drop(v, 1)), Node(0, Drop(v, 0))}
  }

  /** The tables below the root on the way to the n pages from v on. */
  ghost function Paths(v: nat, n: nat): set<Node> {
    if n == 0 then {} else Paths(v, n - 1) + Path(v + n - 1)
  }

  /** How many of the tables do not exist. */
  ghost function Missing(table: map<Node, nat>, ns: set<Node>): nat { |ns - table.Keys| }

  /** The tables missing on one path, level by level. */
  lemma PathMissing(table: map<Node, nat>, v: nat)
    ensures Missing(table, Path(v)) ==
      (if Node(2, Drop(v, 2)) in table then 0 else 1) + (if Node(1, Drop(v, 1)) in table then 0 else 1)
      + if Node(0, Drop(v, 0)) in table then 0 else 1
    ensures Path(v) == {Node(2, Drop(v, 2))} + {Node(1, Drop(v, 1))} + {Node(0, Drop(v, 0))}
  {
    hide Drop;
    ThreeOutside(Node(2, Drop(v, 2)), Node(1, Drop(v, 1)), Node(0, Drop(v, 0)), table.Keys);
  }

  /** The table n has been provided if it was missing; that fails exactly when no page is free. */
  ghost predicate Made(t: map<Node, nat>, t': map<Node, nat>, f: set<int>, f': set<int>, n: Node, ok: bool) {
    && (ok <==> n in t || |f| > 0)
    && t'.Keys == (if ok then t.Keys + {n} else t.Keys)
    && |f'| == |f| - if ok && n !in t then 1 else 0
  }

  /**
   The tables on the way to page v have been provided, a page for each; that fails exactly when too few pages are
   free.
   */
  ghost predicate PathMade(t: map<Node, nat>, t': map<Node, nat>, f: set<int>, f': set<int>, v: nat, ok: bool) {
    && (ok <==> Missing(t, Path(v)) <= |f|)
    && (ok ==> t'.Keys == t.Keys + Path(v) && |f'| == |f| - Missing(t, Path(v)))
    && (!ok ==> |f'| == 0)
  }

  lemma FirstStopped(t0: map<Node, nat>, t1: map<Node, nat>, f0: set<int>, f1: set<int>, v: nat)
    requires Made(t0, t1, f0, f1, Node(2, Drop(v, 2)), false)
    ensures PathMade(t0, t1, f0, f1, v, false)
  {
    hide Drop, Path, Missing;
    PathMissing(t0, v);
  }

  lemma SecondStopped(t0: map<Node, nat>, t1: map<Node, nat>, t2: map<Node, nat>, f0: set<int>, f1: set<int>,
                      f2: set<int>, v: nat)
    requires Made(t0, t1, f0, f1, Node(2, Drop(v, 2)), true) && Made(t1, t2, f1, f2, Node(1, Drop(v, 1)), false)
    ensures PathMade(t0, t2, f0, f2, v, false)
  {
    hide Drop, Path, Missing;
    PathMissing(t0, v);
    assert Node(1, Drop(v, 1)) in t0.Keys <==> Node(1, Drop(v, 1)) in t1.Keys;
  }

  lemma ThirdDecides(t0: map<Node, nat>, t1: map<Node, nat>, t2: map<Node, nat>, t3: map<Node, nat>,
                     f0: set<int>, f1: set<int>, f2: set<int>, f3: set<int>, v: nat, ok: bool)
    requires Made(t0, t1, f0, f1, Node(2, Drop(v, 2)), true) && Made(t1, t2, f1, f2, Node(1, Drop(v, 1)), true)
    requires Made(t2, t3, f2, f3, Node(0, Drop(v, 0)), ok)
    ensures PathMade(t0, t3, f0, f3, v, ok)
  {
    hide Drop, Path, Missing;
    PathMissing(t0, v);
    assert Node(1, Drop(v, 1)) in t0.Keys <==> Node(1, Drop(v, 1)) in t1.Keys;
    assert Node(0, Drop(v, 0)) in t0.Keys <==> Node(0, Drop(v, 0)) in t2.Keys;
  }

  /** One more page needs the tables on its own path that neither existed nor were made for the pages before. */
  lemma OnePathMore(table: map<Node, nat>, table': map<Node, nat>, v: nat, n: nat)
    requires table'.Keys == table.Keys + Paths(v, n)
    ensures Paths(v, n + 1) == Paths(v, n) + Path(v + n)
    ensures Missing(table, Paths(v, n + 1)) == Missing(table, Paths(v, n)) + Missing(table', Path(v + n))
  {
    hide Path;
    AddedInTwoSteps(Paths(v, n), Path(v + n), table.Keys, table'.Keys);
  }

  lemma FewerPathsMissing(table: map<Node, nat>, v: nat, m: nat, n: nat)
    requires m <= n
    ensures Missing(table, Paths(v, m)) <= Missing(table, Paths(v, n))
  {
    hide Path;
    FewerPaths(v, m, n);
    SubsetSize(Paths(v, m) - table.Keys, Paths(v, n) - table.Keys);
  }

  lemma {:induction false} FewerPaths(v: nat, m: nat, n: nat)
    requires m <= n
    ensures Paths(v, m) <= Paths(v, n)
    decreases n
  {
    if m < n {
      FewerPaths(v, m, n - 1);
    }
  }

  /** Entry i of table n. */
  datatype Slot = Slot(n: Node, i: nat)

  datatype VirtOutcome = Refused | Halted | Mapped(pgd: nat)

  /** The order for a page count, which is converted to a 64-bit unsigned number on the way. */
  function OrderFor(nrPages: CInt): nat {
    Log2Ceil(if nrPages < 0 then nrPages + SIZE_LIMIT else nrPages)
  }

  lemma OrderRange(nrPages: CInt)
    ensures OrderFor(nrPages) <= 64
    ensures nrPages > 0 ==> nrPages <= Pow2(OrderFor(nrPages))
    ensures nrPages > 0 && OrderFor(nrPages) > 0 ==> Pow2(OrderFor(nrPages) - 1) < nrPages
    ensures nrPages < 0 ==> OrderFor(nrPages) >= ORDERS
  {
    hide Pow2;
    var x := if nrPages < 0 then nrPages + SIZE_LIMIT else nrPages;
    Pow2Values();
    if x > 0 {
      Log2CeilExact(x);
      if Log2Ceil(x) > 64 {
        Pow2Monotone(64, Log2Ceil(x) - 1);
      }
      if nrPages < 0 && Log2Ceil(x) < 32 {
        Pow2Monotone(Log2Ceil(x), 32);
      }
    }
  }

  lemma UpdatedPte(pages: map<nat, Pte>, u: nat, p: Pte)
    ensures forall v {:trigger PteOf(pages[u := p], v)} ::
      PteOf(pages[u := p], v) == if v == u then p else PteOf(pages, v)
  {
  }

  lemma OnePage()
    ensures Pow2(0) == 1
  {
  }

  lemma AbsentWord()
    ensures PteWord(ABSENT) == 0
  {
  }

  lemma NoSuchOrder(f: set<int>, order: nat)
    ensures CanAllocate(f, order) ==> order < ORDERS
  {
  }

  lemma InUser(va: nat)
    ensures UserHalf(va) <==> PageOf(va) < USER_PAGES
  {
  }

  /** The next page of an address space that does not wrap. */
  lemma NextPage(va: nat)
    requires va < SIZE_LIMIT
    ensures PageOf(va) + 1 < 0x10_0000_0000 ==> PageOf((va + PAGE_SIZE) % SIZE_LIMIT) == PageOf(va) + 1
  {
    var x := va + PAGE_SIZE;
    assert x % SIZE_LIMIT % VA_SPACE == x % VA_SPACE;
    if PageOf(va) + 1 < 0x10_0000_0000 {
      assert va % VA_SPACE + PAGE_SIZE < VA_SPACE;
      assert x % VA_SPACE == va % VA_SPACE + PAGE_SIZE;
    }
  }

  // ---------- what others may rely on ----------

  /** What one address space and its surroundings look like at one moment: tags, memory and the space's own tables. */
  datatype Memory = Memory(types: seq<PageType>, bytes: seq<Byte>, table: map<Node, nat>)

  ghost predicate TableIn(m: Memory, p: int) {
    exists n :: n in m.table && m.table[n] == p
  }

  ghost predicate HasPage(bytes: seq<Byte>, p: int) { 0 <= p && (p + 1) * PAGE_SIZE <= |bytes| }

  ghost function PageBytes(bytes: seq<Byte>, p: int): seq<Byte>
    requires HasPage(bytes, p)
  {
    bytes[p * PAGE_SIZE..(p + 1) * PAGE_SIZE]
  }

  lemma WordSlice(bytes: seq<Byte>, p: nat, i: nat)
    requires HasPage(bytes, p) && i < ENTRIES
    ensures var a := EntryAddress(p, i);
            a + 8 <= |bytes| && bytes[a..a + 8] == PageBytes(bytes, p)[8 * i..8 * i + 8]
  {
    Subslice(bytes, p * PAGE_SIZE, (p + 1) * PAGE_SIZE, 8 * i, 8 * i + 8);
  }

  /**
   An allocated page stays allocated, and if it is no table of this space it keeps its contents; no page has become
   available.
   */
  ghost predicate SparedPage(a: Memory, b: Memory, p: int) {
    0 < p < |a.types| == |b.types| ==>
      && (b.types[p] == AVAILABLE ==> a.types[p] == AVAILABLE)
      && (a.types[p] == ALLOCATED ==> b.types[p] == ALLOCATED)
      && (a.types[p] == ALLOCATED && !TableIn(a, p) && HasPage(a.bytes, p) && HasPage(b.bytes, p) ==>
            PageBytes(a.bytes, p) == PageBytes(b.bytes, p))
  }

  /** A table stays where it is, and a new one is in a page that was available. */
  ghost predicate TableOrigin(a: Memory, b: Memory, n: Node) {
    && (n in a.table ==> n in b.table && b.table[n] == a.table[n])
    && (n in b.table && n !in a.table ==> 0 < b.table[n] < |a.types| && a.types[b.table[n]] == AVAILABLE)
  }

  /** From a to b this address space has not touched what belongs to others. */
  ghost predicate Spared(a: Memory, b: Memory) {
    && |a.types| == |b.types| && |a.bytes| == |b.bytes|
    && (forall p {:trigger SparedPage(a, b, p)} :: SparedPage(a, b, p))
    && (forall n {:trigger TableOrigin(a, b, n)} :: TableOrigin(a, b, n))
  }

  lemma SparedSelf(a: Memory)
    ensures Spared(a, a)
  {
  }

  lemma SparedTwice(a: Memory, b: Memory, c: Memory)
    requires Spared(a, b) && Spared(b, c)
    ensures Spared(a, c)
  {
    hide PageBytes;
    forall p
      ensures SparedPage(a, c, p)
    {
      assert SparedPage(a, b, p) && SparedPage(b, c, p);
      if 0 < p < |a.types| && a.types[p] == ALLOCATED && TableIn(b, p) {
        var n :| n in b.table && b.table[n] == p;
        assert TableOrigin(a, b, n);
        assert n in a.table;
      }
    }
    forall n
      ensures TableOrigin(a, c, n)
    {
      assert TableOrigin(a, b, n) && TableOrigin(b, c, n);
      if n in c.table && n !in b.table {
        assert SparedPage(a, b, c.table[n]);
      }
    }
  }

  /** From b to c only page q was written to. */
  ghost predicate WroteOnly(b: Memory, c: Memory, q: int) {
    && c.types == b.types && |c.bytes| == |b.bytes|
    && forall p {:trigger PageBytes(c.bytes, p)} ::
         HasPage(c.bytes, p) && p != q ==> PageBytes(c.bytes, p) == PageBytes(b.bytes, p)
  }

  /** Making a page that was available the table n, and writing to a table, spares others. */
  lemma LinkedSpares(a: Memory, b: Memory, c: Memory, n: Node, q: int)
    requires Spared(a, b) && WroteOnly(b, c, q) && TableIn(a, q) && b.table == a.table
    requires n !in a.table && n in c.table && c.table == b.table[n := c.table[n]]
    requires 0 < c.table[n] < |a.types| && a.types[c.table[n]] == AVAILABLE
    ensures Spared(a, c)
  {
    hide PageBytes;
    forall p
      ensures SparedPage(a, c, p)
    {
      assert SparedPage(a, b, p);
    }
    forall m
      ensures TableOrigin(a, c, m)
    {
      assert TableOrigin(a, b, m);
    }
  }

  lemma WriteSpares(b: Memory, c: Memory, q: int)
    requires WroteOnly(b, c, q) && TableIn(b, q) && c.table == b.table
    ensures Spared(b, c)
  {
    hide PageBytes;
    forall p
      ensures SparedPage(b, c, p)
    {
    }
  }

  datatype PageRun = PageRun(base: nat, order: nat)

  class VMA {
    const alloc: PageAllocator
    const mem: array<Byte>
    /** The physical address of the root table. */
    var base: nat
    var allocations: seq<PageRun>
    /** The page that holds each table. */
    ghost var table: map<Node, nat>
    /** The mapping itself. */
    ghost var pages: map<nat, Pte>
    /** The pages handed out for other purposes than tables. */
    ghost var data: set<int>

    ghost function Footprint(): set<object> { {this, mem} + alloc.Footprint() }

    ghost predicate Wired()
      reads alloc.Footprint()
    {
      && alloc.Valid() && mem !in alloc.Footprint() && this !in alloc.Footprint()
      && 0 < alloc.nrPages <= MAX_PAGES && mem.Length == alloc.nrPages * PAGE_SIZE
        && alloc.types.Length == alloc.nrPages && alloc.types[0] == RESERVED
    }

    ghost predicate Owned(p: int)
      reads alloc.types
    {
      0 < p < alloc.types.Length && alloc.types[p] == ALLOCATED
    }

    ghost predicate NodeOk(n: Node)
      requires n in table
      reads this`table, this`data, alloc.types
    {
      && Owned(table[n]) && table[n] !in data && n.h <= 3 && (n.h == 3 ==> n == ROOT) && (n.h == 2 ==> n.prefix < 256)
      && (n.h < 3 ==> Parent(n) in table)
    }

    ghost predicate EntryOk(n: Node, i: nat)
      requires n in table
      reads this`table, this`pages, mem
    {
      InMemory(mem, table[n]) && i < ENTRIES && WordAt(mem, table[n], i) == EntryWord(table, pages, n, i)
    }

    ghost predicate PageOk(v: nat)
      requires v in pages
      reads this`table, this`pages
    {
      v < USER_PAGES && Node(0, v / ENTRIES) in table && pages[v].frame < 0x10_0000_0000_0000
    }

    ghost predicate Separate(n: Node, m: Node)
      requires n in table && m in table
      reads this`table
    {
      table[n] == table[m] ==> n == m
    }

    /** The tables are in pages of their own. */
    ghost predicate Nodes()
      reads this`table, this`data, alloc.Footprint()
    {
      && Wired()
      && (forall n {:trigger NodeOk(n)} :: n in table ==> NodeOk(n))
      && (forall n, m {:trigger Separate(n, m)} :: n in table && m in table ==> Separate(n, m))
      && (forall p :: p in data ==> Owned(p))
    }

    /** The user entries of the tables say exactly what the mapping says. */
    ghost predicate Entries()
      reads this`table, this`pages, mem
    {
      && (forall n, i {:trigger EntryOk(n, i)} :: n in table && UserEntry(n, i) ==> EntryOk(n, i))
      && (forall v {:trigger PageOk(v)} :: v in pages ==> PageOk(v))
    }

    ghost predicate Trees()
      reads this`table, this`pages, this`data, mem, alloc.Footprint()
    {
      Nodes() && Entries()
    }

    ghost predicate Valid()
      reads Footprint()
    {
      Trees() && ROOT in table && base == table[ROOT] * PAGE_SIZE && 0 < base && InMemory(mem, table[ROOT])
    }

    /** The pages the page allocator can still give. */
    ghost function FreeFrames(): set<int>
      reads alloc.algorithm
    {
      alloc.algorithm.Free()
    }

    /** There is a page for each table that a mapping of the n pages from v on lacks. */
    ghost predicate TablesFit(v: nat, n: nat)
      reads this`table, alloc.algorithm
    {
      Missing(table, Paths(v, n)) <= |FreeFrames()|
    }

    /** What the address means: the mapped page's base plus the offset. */
    ghost function Translate(va: nat): Option<nat>
      reads this
    {
      Translated(pages, va)
    }

    ghost function Now(): Memory
      reads this`table, mem, alloc.types
    {
      Memory(alloc.types[..], mem[..], table)
    }

    ghost predicate IsTable(p: int)
      reads this`table
    {
      exists n :: n in table && table[n] == p
    }

    twostate lemma WroteNow(q: int)
      requires unchanged(alloc.types)
      requires forall p, k {:trigger ByteAt(mem, p, k)} :: InMemory(mem, p) && 0 <= k < PAGE_SIZE && p != q ==>
                 ByteAt(mem, p, k) == old(ByteAt(mem, p, k))
      ensures WroteOnly(old(Now()), Now(), q)
    {
      ghost var b, c := old(Now()), Now();
      forall p | HasPage(c.bytes, p) && p != q
        ensures PageBytes(c.bytes, p) == PageBytes(b.bytes, p)
      {
        forall k | 0 <= k < PAGE_SIZE
          ensures PageBytes(c.bytes, p)[k] == PageBytes(b.bytes, p)[k]
        {
          assert ByteAt(mem, p, k) == old(ByteAt(mem, p, k));
        }
      }
    }

    /** Others are spared by what keeps tags and, but for its own tables, the bytes of allocated pages. */
    twostate lemma SparedNow()
      requires forall p :: old(Owned(p)) ==> Owned(p)
      requires forall p, k {:trigger ByteAt(mem, p, k)} ::
                 old(Owned(p)) && !old(IsTable(p)) && InMemory(mem, p) && 0 <= k < PAGE_SIZE ==>
                   ByteAt(mem, p, k) == old(ByteAt(mem, p, k))
      requires table == old(table)
      requires forall p :: 0 <= p < alloc.types.Length && alloc.types[p] == AVAILABLE ==>
        old(alloc.types[p]) == AVAILABLE
      ensures Spared(old(Now()), Now())
    {
      ghost var a, b := old(Now()), Now();
      forall p
        ensures SparedPage(a, b, p)
      {
        if old(Owned(p)) && !TableIn(a, p) && HasPage(a.bytes, p) {
          assert InMemory(mem, p);
          forall k | 0 <= k < PAGE_SIZE
            ensures PageBytes(a.bytes, p)[k] == PageBytes(b.bytes, p)[k]
          {
            assert ByteAt(mem, p, k) == old(ByteAt(mem, p, k));
          }
        }
      }
    }

    /** The invariant survives whatever keeps the tables' tags and user entries. */
    twostate lemma TreesKept()
      requires old(Trees()) && Wired() && table == old(table) && pages == old(pages) && data == old(data)
      requires forall p :: old(Owned(p)) ==> Owned(p)
      requires forall p: nat, i: nat {:trigger WordAt(mem, p, i)} ::
        InMemory(mem, p) && old(Owned(p)) && IsTable(p) && i < ENTRIES ==>
                 WordAt(mem, p, i) == old(WordAt(mem, p, i))
      ensures Trees()
    {
      hide PageAllocator.Valid, PageAllocator.Agreement, PteWord, WordAt;
      forall n | n in table
        ensures NodeOk(n)
      {
        assert old(NodeOk(n));
      }
      forall n, i | n in table && UserEntry(n, i)
        ensures EntryOk(n, i)
      {
        assert old(NodeOk(n)) && old(EntryOk(n, i)) && IsTable(table[n]);
        assert WordAt(mem, table[n], i) == old(WordAt(mem, table[n], i));
      }
      forall v | v in pages
        ensures PageOk(v)
      {
        assert old(PageOk(v));
      }
      forall n, m | n in table && m in table
        ensures Separate(n, m)
      {
        assert old(Separate(n, m));
      }
    }

    /** An address space survives what keeps all tags of allocated pages and the contents of its tables. */
    twostate lemma StaysValid()
      requires old(Valid()) && Wired() && unchanged(this) && forall p :: old(Owned(p)) ==> Owned(p)
      requires forall n :: n in table && HasPage(mem[..], table[n]) ==>
                 PageBytes(old(mem[..]), table[n]) == PageBytes(mem[..], table[n])
      ensures Valid()
    {
      hide PageAllocator.Valid, PageAllocator.Agreement, Nodes, Entries;
      forall p: nat, i: nat | InMemory(mem, p) && old(Owned(p)) && IsTable(p) && i < ENTRIES
        ensures WordAt(mem, p, i) == old(WordAt(mem, p, i))
      {
        var a := EntryAddress(p, i);
        WordSlice(mem[..], p, i);
        WordSlice(old(mem[..]), p, i);
        assert mem[a..a + 8] == mem[..][a..a + 8] && old(mem[a..a + 8]) == old(mem[..])[a..a + 8];
      }
      TreesKept();
    }

    /** A new address space maps nothing; its root table comes from the page allocator. */
    constructor (a: PageAllocator, m: array<Byte>)
      requires a.Valid() && m !in a.Footprint() && 0 < a.nrPages <= MAX_PAGES && m.Length == a.nrPages * PAGE_SIZE
        && a.types[0] == RESERVED
      requires CanAllocate(a.algorithm.Free(), 0)
      modifies m, a.Footprint()
      ensures Valid() && pages == map[] && data == {} && alloc == a && mem == m
    {
      hide CanAllocate, Trees, Base;
      alloc, mem := a, m;
      base, allocations := 0, [];
      table, pages, data := map[], map[], {};
      new;
      NoTables();
      NewRoot();
    }

    lemma NoTables()
      requires Wired() && table == map[] && pages == map[] && data == {}
      ensures Trees()
    {
      hide PageAllocator.Valid, NodeOk, EntryOk, PageOk, Separate, Owned;
    }

    /** Gives an address space without tables its root. */
    method NewRoot()
      requires Trees() && table == map[] && pages == map[] && data == {} && CanAllocate(alloc.algorithm.Free(), 0)
      modifies this`base, this`allocations, this`table, mem, alloc.Footprint()
      ensures Valid()
    {
      hide PageAllocator.Valid, PageAllocator.Agreement, WordAt, PteWord, EntryWord, Pow2, CanAllocate, Child, Parent,
        ByteAt, Aligned, RunFree, Base;
      OnePage();
      var r := AllocatePhys(0);
      table := map[ROOT := r.pgd];
      base := r.pgd * PAGE_SIZE;
      forall i | UserEntry(ROOT, i)
        ensures EntryOk(ROOT, i)
      {
        ChildFacts(ROOT, i);
        EmptyWord(table, pages, ROOT, i);
      }
      assert NodeOk(ROOT) && Separate(ROOT, ROOT);
    }

    /** Takes a run of pages from the page allocator and clears it. */
    method AllocatePhys(order: CInt) returns (r: AllocOutcome)
      requires Trees()
      modifies this`allocations, mem, alloc.Footprint()
      ensures Trees()
      ensures r.NullTagged? <==> !CanAllocate(old(alloc.algorithm.Free()), order)
      ensures r.NullTagged? ==> unchanged(mem) && unchanged(this) && FreeFrames() == old(FreeFrames())
      ensures Spared(old(Now()), Now())
      ensures r.Pages? ==> Taken(old(FreeFrames()), FreeFrames(), r.pgd, order)
      ensures r.Pages? ==>
        0 < r.pgd && r.pgd + Pow2(order) <= alloc.nrPages
        && allocations == old(allocations) + [PageRun(r.pgd, order)]
      ensures r.Pages? ==> forall p :: r.pgd <= p < r.pgd + Pow2(order) ==> Owned(p) && old(alloc.types[p]) == AVAILABLE
      ensures r.Pages? ==> forall p :: 0 <= p < alloc.nrPages && !(r.pgd <= p < r.pgd + Pow2(order)) ==>
        alloc.types[p] == old(alloc.types[p])
      ensures r.Pages? ==> forall p, k {:trigger ByteAt(mem, p, k)} :: InMemory(mem, p) && 0 <= k < PAGE_SIZE ==>
                ByteAt(mem, p, k) == if r.pgd <= p < r.pgd + Pow2(order) then 0 else old(ByteAt(mem, p, k))
      ensures r.Pages? ==> forall p: nat, i: nat {:trigger WordAt(mem, p, i)} :: InMemory(mem, p) && i < ENTRIES ==>
                WordAt(mem, p, i) == if r.pgd <= p < r.pgd + Pow2(order) then 0 else old(WordAt(mem, p, i))
    {
      hide PageAllocator.Valid, PageAllocator.Agreement, Aligned, WordAt, ByteAt, Pow2, NodeOk, EntryOk, PageOk,
        Entries, RunFree, Run, Spared, Now;
      r := alloc.AllocPages(order);
      if r.NullTagged? {
        TreesKept();
        SparedNow();
        return;
      }
      allocations := allocations + [PageRun(r.pgd, order)];
      ClearPages(mem, r.pgd, Pow2(order));
      TreesKept();
      SparedNow();
    }

    /** Fills the empty entry at e, entry i of page p: base, then present, writable and user. */
    method StoreTableEntry(e: nat, pgd: nat, ghost p: nat, ghost i: nat)
      requires InMemory(mem, p) && i < ENTRIES && e == EntryAddress(p, i) && WordAt(mem, p, i) == 0 && pgd < MAX_PAGES
      modifies mem
      ensures WordAt(mem, p, i) == PteWord(Pte(pgd, true, true, true))
      ensures forall q: nat, j: nat {:trigger WordAt(mem, q, j)} ::
        InMemory(mem, q) && j < ENTRIES && !(q == p && j == i) ==>
                WordAt(mem, q, j) == old(WordAt(mem, q, j))
      ensures forall q, k {:trigger ByteAt(mem, q, k)} :: InMemory(mem, q) && 0 <= k < PAGE_SIZE && q != p ==>
                ByteAt(mem, q, k) == old(ByteAt(mem, q, k))
    {
      hide PteWord, HasFlag, WithFlag, WithBase, WordAt, ByteAt, Load, EntryAddress;
      AbsentWord();
      ghost var t := Pte(pgd, false, false, false);
      PteWithBase(ABSENT, pgd * PAGE_SIZE);
      PteRange(t, MAX_PAGES);
      EntryAt(mem, p, i);
      var w := Load(mem, e);
      StoreEntry(mem, e, WithBase(w, pgd * PAGE_SIZE), p, i);
      PteBits(t);
      t := t.(present := true);
      PteRange(t, MAX_PAGES);
      EntryAt(mem, p, i);
      w := Load(mem, e);
      StoreEntry(mem, e, WithFlag(w, PRESENT), p, i);
      PteBits(t);
      t := t.(writable := true);
      PteRange(t, MAX_PAGES);
      EntryAt(mem, p, i);
      w := Load(mem, e);
      StoreEntry(mem, e, WithFlag(w, WRITABLE), p, i);
      PteBits(t);
      t := t.(user := true);
      PteRange(t, MAX_PAGES);
      EntryAt(mem, p, i);
      w := Load(mem, e);
      StoreEntry(mem, e, WithFlag(w, ALLOW_USER), p, i);
    }

    lemma NothingBelow(c: Node)
      requires Trees() && c !in table && c.h < 3
      ensures Bare(table, pages, c)
    {
      hide PteWord, WordAt, EntryOk;
      forall j | 0 <= j < ENTRIES
        ensures c.h > 0 ==> Child(c, j) !in table
        ensures c.h == 0 ==> PageAt(c, j) !in pages
      {
        if c.h > 0 {
          ChildFacts(c, j);
          assert Child(c, j) in table ==> NodeOk(Child(c, j));
        } else {
          assert PageAt(c, j) in pages ==> PageOk(PageAt(c, j));
        }
      }
    }

    /** A page of its own for one more table. */
    twostate lemma LinkedNodes(at: Slot)
      requires old(Nodes()) && at.n in old(table) && at.n.h > 0 && UserEntry(at.n, at.i)
        && Child(at.n, at.i) !in old(table)
      requires unchanged(alloc.Footprint()) && data == old(data)
      requires Child(at.n, at.i) in table && table == old(table)[Child(at.n, at.i) := table[Child(at.n, at.i)]]
      requires var pgd := table[Child(at.n, at.i)];
        Owned(pgd) && pgd !in data && forall m :: m in old(table) ==> old(table)[m] != pgd
      ensures Nodes()
    {
      hide PageAllocator.Valid, PageAllocator.Agreement, Child, Parent;
      ChildFacts(at.n, at.i);
      var c := Child(at.n, at.i);
      assert old(NodeOk(at.n));
      forall m | m in table
        ensures NodeOk(m)
      {
        assert m != c ==> old(NodeOk(m));
      }
      forall m, k | m in table && k in table
        ensures Separate(m, k)
      {
        assert m != c && k != c ==> old(Separate(m, k));
      }
    }

    /** Hangs the cleared page pgd below entry i of node n as a table that maps nothing. */
    method LinkTable(e: nat, pgd: nat, ghost n: Node, ghost i: nat)
      requires Valid() && n in table && n.h > 0 && UserEntry(n, i) && e == EntryAddress(table[n], i)
        && Child(n, i) !in table
      requires Owned(pgd) && pgd !in data && InMemory(mem, pgd) && forall m :: m in table ==> table[m] != pgd
      requires forall j {:trigger WordAt(mem, pgd, j)} :: 0 <= j < ENTRIES ==> WordAt(mem, pgd, j) == 0
      modifies this`table, mem
      ensures Valid() && table == old(table)[Child(n, i) := pgd] && InMemory(mem, table[n])
      ensures WroteOnly(old(Now()), Now(), table[n])
      ensures forall q: nat, j: nat {:trigger WordAt(mem, q, j)} ::
        InMemory(mem, q) && j < ENTRIES && !(q == table[n] && j == i) ==>
                WordAt(mem, q, j) == old(WordAt(mem, q, j))
      ensures forall q, k {:trigger ByteAt(mem, q, k)} :: InMemory(mem, q) && 0 <= k < PAGE_SIZE && q != table[n] ==>
                ByteAt(mem, q, k) == old(ByteAt(mem, q, k))
    {
      hide PageAllocator.Valid, PageAllocator.Agreement, PteWord, WordAt, ByteAt, EntryWord, Bare, Child, Parent,
        EntryAddress, WroteOnly, Now;
      ChildFacts(n, i);
      assert NodeOk(n) && EntryOk(n, i);
      ghost var c := Child(n, i);
      NothingBelow(c);
      EmptyWord(table, pages, n, i);
      StoreTableEntry(e, pgd, table[n], i);
      table := table[c := pgd];
      WroteNow(table[n]);
      LinkedNodes(Slot(n, i));
      forall m, j | m in table && UserEntry(m, j)
        ensures EntryOk(m, j)
      {
        LinkedWords(old(table), pages, n, i, pgd, m, j);
        assert m != c ==> old(NodeOk(m)) && old(EntryOk(m, j)) && old(Separate(n, m));
      }
      forall v | v in pages
        ensures PageOk(v)
      {
        assert old(PageOk(v));
      }
    }

    /** The kernel's entry i of the root. */
    ghost function KernelEntry(i: nat): nat
      requires ROOT in table && InMemory(mem, table[ROOT]) && i < ENTRIES
      reads this, mem
    {
      WordAt(mem, table[ROOT], i)
    }

    /** Neither the data pages' contents nor the kernel's half of the root has changed. */
    twostate predicate Undisturbed()
      requires old(Valid()) && Valid()
      reads Footprint()
    {
      && data == old(data) && base == old(base)
      && (forall p, k {:trigger ByteAt(mem, p, k)} :: p in data && InMemory(mem, p) && 0 <= k < PAGE_SIZE ==>
            ByteAt(mem, p, k) == old(ByteAt(mem, p, k)))
      && (forall i {:trigger KernelEntry(i)} :: 256 <= i < ENTRIES ==> KernelEntry(i) == old(KernelEntry(i)))
    }

    /** Follows entry i of table n, hanging a new table there if it is empty. */
    method NextTable(e: nat, ghost n: Node, ghost i: nat) returns (ok: bool, next: nat)
      requires Valid() && n in table && n.h > 0 && UserEntry(n, i) && e == EntryAddress(table[n], i)
      modifies this`allocations, this`table, mem, alloc.Footprint()
      ensures Valid() && Undisturbed()
      ensures Spared(old(Now()), Now())
      ensures Made(old(table), table, old(FreeFrames()), FreeFrames(), Child(n, i), ok)
      ensures ok ==> Child(n, i) in table && next == table[Child(n, i)] * PAGE_SIZE
      ensures forall m :: m in old(table) ==> m in table && table[m] == old(table[m])
    {
      hide CanAllocate, Run, PageAllocator.Valid, PageAllocator.Agreement, PteWord, WordAt, ByteAt, Load, BaseAddress,
        Child, Parent, EntryAddress, Base, Pow2, Spared, Now;
      EntryBase(n, i);
      EntryAt(mem, table[n], i);
      SparedSelf(Now());
      var w := Load(mem, e);
      if BaseAddress(w) == 0 {
        ok := MakeTable(e, n, i);
        if !ok {
          return false, 0;
        }
        EntryBase(n, i);
      }
      EntryAt(mem, table[n], i);
      w := Load(mem, e);
      ok, next := true, BaseAddress(w);
    }

    /** Hangs a new table below the empty entry i of table n. */
    method MakeTable(e: nat, ghost n: Node, ghost i: nat) returns (ok: bool)
      requires Valid() && n in table && n.h > 0 && UserEntry(n, i) && e == EntryAddress(table[n], i)
      requires Child(n, i) !in table
      modifies this`allocations, this`table, mem, alloc.Footprint()
      ensures Valid() && Undisturbed()
      ensures Spared(old(Now()), Now())
      ensures Made(old(table), table, old(FreeFrames()), FreeFrames(), Child(n, i), ok)
      ensures ok ==> Child(n, i) in table
      ensures forall m :: m in old(table) ==> m in table && table[m] == old(table[m])
    {
      hide CanAllocate, Run, PageAllocator.Valid, PageAllocator.Agreement, PteWord, WordAt, ByteAt, Child, Parent,
        EntryAddress, Base, Pow2, Spared, WroteOnly;
      ChildFacts(n, i);
      assert NodeOk(ROOT);
      SinglePage(FreeFrames());
      var r := AllocatePhys(0);
      if r.NullTagged? {
        return false;
      }
      OnePage();
      TakenSize(old(FreeFrames()), FreeFrames(), r.pgd, 0);
      assert Owned(r.pgd) && old(alloc.types[r.pgd]) == AVAILABLE;
      forall m | m in table
        ensures table[m] != r.pgd
      {
        assert old(NodeOk(m));
      }
      assert old(NodeOk(n)) && old(NodeOk(ROOT)) && old(Separate(n, ROOT));
      ghost var m0, m1 := old(Now()), Now();
      LinkTable(e, r.pgd, n, i);
      forall p, k | p in data && InMemory(mem, p) && 0 <= k < PAGE_SIZE
        ensures ByteAt(mem, p, k) == old(ByteAt(mem, p, k))
      {
        assert old(Owned(p));
      }
      assert TableIn(m0, table[n]);
      LinkedSpares(m0, m1, Now(), Child(n, i), table[n]);
      ok := true;
    }

    /** An entry above the lowest level has base zero exactly when there is no table below it. */
    lemma EntryBase(n: Node, i: nat)
      requires Valid() && n in table && n.h > 0 && UserEntry(n, i)
      ensures InMemory(mem, table[n])
      ensures var w := WordAt(mem, table[n], i);
        if Child(n, i) in table then BaseAddress(w) == table[Child(n, i)] * PAGE_SIZE > 0 && HasFlag(w, PRESENT)
        else BaseAddress(w) == 0 && !HasFlag(w, PRESENT)
    {
      hide PageAllocator.Valid, PageAllocator.Agreement, WordAt;
      assert NodeOk(n) && EntryOk(n, i);
      if Child(n, i) in table {
        assert NodeOk(Child(n, i));
        PteBits(Pte(table[Child(n, i)], true, true, true));
      }
    }

    /** A store into an entry of a table other than the root disturbs neither. */
    twostate lemma StoredElsewhere(at: Slot)
      requires old(Valid()) && Valid() && data == old(data) && base == old(base) && table == old(table)
      requires at.n in table && at.i < ENTRIES && at.n != ROOT
      requires forall q: nat, j: nat {:trigger WordAt(mem, q, j)} ::
        InMemory(mem, q) && j < ENTRIES && !(q == table[at.n] && j == at.i) ==>
                 WordAt(mem, q, j) == old(WordAt(mem, q, j))
      requires forall q, k {:trigger ByteAt(mem, q, k)} ::
        InMemory(mem, q) && 0 <= k < PAGE_SIZE && q != table[at.n] ==>
                 ByteAt(mem, q, k) == old(ByteAt(mem, q, k))
      ensures Undisturbed()
    {
      hide PageAllocator.Valid, PageAllocator.Agreement, PteWord, WordAt, ByteAt, EntryOk;
      assert NodeOk(at.n) && Separate(at.n, ROOT);
    }

    /** Rewrites the lowest-level entry i of n: the base, then each flag asked for. */
    method SetLeaf(e: nat, pa: nat, flags: MappingFlags, ghost n: Node, ghost i: nat)
      requires Valid() && n in table && n.h == 0 && i < ENTRIES && e == EntryAddress(table[n], i)
      requires pa < SIZE_LIMIT && PageAt(n, i) < USER_PAGES
      modifies this`pages, mem
      ensures Valid() && Undisturbed() && Spared(old(Now()), Now())
      ensures pages == old(pages)[PageAt(n, i) := Remapped(PteOf(old(pages), PageAt(n, i)), pa, flags)]
    {
      hide PageAllocator.Valid, PageAllocator.Agreement, PteWord, WordAt, ByteAt, EntryWord, Remapped, PageAt, PteOf,
        EntryAddress, Spared, WroteOnly;
      ghost var v := PageAt(n, i);
      ghost var p0 := PteOf(pages, v);
      LeafEntry(n, i);
      StoreLeaf(e, pa, flags, p0, table[n], i);
      pages := pages[v := Remapped(p0, pa, flags)];
      RemappedFrame(p0, pa, flags);
      forall m, j | m in table && UserEntry(m, j)
        ensures EntryOk(m, j)
      {
        assert old(NodeOk(m)) && old(EntryOk(m, j)) && old(Separate(n, m));
        LeafWords(table, old(pages), n, i, pages[v], m, j);
      }
      forall u | u in pages
        ensures PageOk(u)
      {
        assert u != v ==> old(PageOk(u));
      }
      StoredElsewhere(Slot(n, i));
      WroteNow(table[n]);
      assert TableIn(old(Now()), table[n]);
      WriteSpares(old(Now()), Now(), table[n]);
    }

    lemma LeafEntry(n: Node, i: nat)
      requires Valid() && n in table && n.h == 0 && i < ENTRIES
      ensures InMemory(mem, table[n]) && Owned(table[n]) && table[n] !in data && Separate(n, ROOT)
      ensures WordAt(mem, table[n], i) == PteWord(PteOf(pages, PageAt(n, i)))
      ensures PageAt(n, i) in pages ==> PageOk(PageAt(n, i))
      ensures PageAt(n, i) / ENTRIES == n.prefix
    {
      hide PageAllocator.Valid, PageAllocator.Agreement, PteWord, WordAt;
      assert NodeOk(n) && EntryOk(n, i);
      if PageAt(n, i) in pages {
        assert PageOk(PageAt(n, i));
      }
    }

    method StoreLeaf(e: nat, pa: nat, flags: MappingFlags, ghost p0: Pte, ghost p: nat, ghost i: nat)
      requires InMemory(mem, p) && i < ENTRIES && e == EntryAddress(p, i) && WordAt(mem, p, i) == PteWord(p0)
        && pa < SIZE_LIMIT
      modifies mem
      ensures WordAt(mem, p, i) == PteWord(Remapped(p0, pa, flags))
      ensures forall q: nat, j: nat {:trigger WordAt(mem, q, j)} ::
        InMemory(mem, q) && j < ENTRIES && !(q == p && j == i) ==>
                WordAt(mem, q, j) == old(WordAt(mem, q, j))
      ensures forall q, k {:trigger ByteAt(mem, q, k)} :: InMemory(mem, q) && 0 <= k < PAGE_SIZE && q != p ==>
                ByteAt(mem, q, k) == old(ByteAt(mem, q, k))
    {
      hide PteWord, HasFlag, WithFlag, WithBase, WordAt, ByteAt, Load, EntryAddress;
      ghost var t := p0.(frame := pa / PAGE_SIZE);
      PteWithBase(p0, pa);
      PteRange(t, 0x10_0000_0000_0000);
      EntryAt(mem, p, i);
      var w := Load(mem, e);
      StoreEntry(mem, e, WithBase(w, pa), p, i);
      if flags.present {
        PteBits(t);
        t := t.(present := true);
        PteRange(t, 0x10_0000_0000_0000);
        EntryAt(mem, p, i);
        w := Load(mem, e);
        StoreEntry(mem, e, WithFlag(w, PRESENT), p, i);
      }
      if flags.writable {
        PteBits(t);
        t := t.(writable := true);
        PteRange(t, 0x10_0000_0000_0000);
        EntryAt(mem, p, i);
        w := Load(mem, e);
        StoreEntry(mem, e, WithFlag(w, WRITABLE), p, i);
      }
      if flags.user {
        PteBits(t);
        t := t.(user := true);
        PteRange(t, 0x10_0000_0000_0000);
        EntryAt(mem, p, i);
        w := Load(mem, e);
        StoreEntry(mem, e, WithFlag(w, ALLOW_USER), p, i);
      }
    }

    /** Maps the page of va to the page of pa. It gives up exactly when more tables are missing than pages are free. */
    method InsertMapping(va: nat, pa: nat, flags: MappingFlags) returns (ok: bool)
      requires Valid() && UserHalf(va) && pa < SIZE_LIMIT
      modifies this`allocations, this`table, this`pages, mem, alloc.Footprint()
      ensures Valid() && Undisturbed()
      ensures pages == if ok then old(pages)[PageOf(va) := Remapped(PteOf(old(pages), PageOf(va)), pa, flags)]
                       else old(pages)
      ensures ok ==> MapsTo(old(pages), pages, va, pa, flags)
      ensures PathMade(old(table), table, old(FreeFrames()), FreeFrames(), PageOf(va), ok)
      ensures Spared(old(Now()), Now())
    {
      hide Spared, Now, Made, PathMade, PageAllocator.Valid, PageAllocator.Agreement, PteWord, WordAt, ByteAt, PageOf,
        Trees, MapsTo, Remapped, UserHalf, TableIndices;
      var (pm, pdp, pd, pt) := TableIndices(va);
      IndexDigits(va);
      ghost var v := PageOf(va);
      RemappedMapsTo(pages, va, pa, flags);
      ghost var t0, f0, m0 := table, FreeFrames(), Now();
      var pdpt, pdt, ptt;
      ok, pdpt := NextTable(base + 8 * pm, ROOT, pm);
      ghost var t1, f1, m1 := table, FreeFrames(), Now();
      if !ok {
        FirstStopped(t0, t1, f0, f1, v);
        return;
      }
      ok, pdt := NextTable(pdpt + 8 * pdp, Node(2, Drop(v, 2)), pdp);
      ghost var t2, f2, m2 := table, FreeFrames(), Now();
      SparedTwice(m0, m1, m2);
      if !ok {
        SecondStopped(t0, t1, t2, f0, f1, f2, v);
        return;
      }
      ok, ptt := NextTable(pdt + 8 * pd, Node(1, Drop(v, 1)), pd);
      ThirdDecides(t0, t1, t2, table, f0, f1, f2, FreeFrames(), v, ok);
      ghost var m3 := Now();
      SparedTwice(m0, m2, m3);
      if !ok { return; }
      SetLeaf(ptt + 8 * pt, pa, flags, Node(0, Drop(v, 0)), pt);
      SparedTwice(m0, m3, Now());
    }

    /** Looks va up in the tables. */
    method GetMapping(va: nat) returns (pa: Option<nat>)
      requires Valid() && UserHalf(va)
      ensures pa == Translate(va)
    {
      hide PageAllocator.Valid, PageAllocator.Agreement, PteWord, WordAt, Load, PageOf, HasFlag, BaseAddress, Trees;
      if base == 0 {
        return None;
      }
      var (pm, pdp, pd, pt) := TableIndices(va);
      IndexDigits(va);
      ghost var v := PageOf(va);
      NoTableNoPage(v);
      EntryBase(ROOT, pm);
      EntryAt(mem, table[ROOT], pm);
      var pml4e := Load(mem, base + 8 * pm);
      if !HasFlag(pml4e, PRESENT) {
        return None;
      }
      EntryBase(Node(2, Drop(v, 2)), pdp);
      EntryAt(mem, table[Node(2, Drop(v, 2))], pdp);
      var pdpe := Load(mem, BaseAddress(pml4e) + 8 * pdp);
      if !HasFlag(pdpe, PRESENT) {
        return None;
      }
      EntryBase(Node(1, Drop(v, 1)), pd);
      EntryAt(mem, table[Node(1, Drop(v, 1))], pd);
      var pde := Load(mem, BaseAddress(pdpe) + 8 * pd);
      if !HasFlag(pde, PRESENT) {
        return None;
      }
      LeafEntry(Node(0, Drop(v, 0)), pt);
      PteBits(PteOf(pages, v));
      EntryAt(mem, table[Node(0, Drop(v, 0))], pt);
      var pte := Load(mem, BaseAddress(pde) + 8 * pt);
      if !HasFlag(pte, PRESENT) {
        return None;
      }
      return Some(BaseAddress(pte) + va % PAGE_SIZE);
    }

    /** A mapped page has its tables on every level. */
    lemma NoTableNoPage(v: nat)
      requires Valid()
      ensures v in pages ==> forall h :: 0 <= h < 3 ==> Node(h, Drop(v, h)) in table
    {
      hide PageAllocator.Valid, PageAllocator.Agreement, EntryOk;
      if v in pages {
        assert PageOk(v);
        assert NodeOk(Node(0, Drop(v, 0)));
        assert NodeOk(Node(1, Drop(v, 1)));
        assert NodeOk(Node(2, Drop(v, 2)));
      }
    }

    /** Copies the kernel's two root entries from a template; the user mapping is not affected. */
    method InstallDefaultKernelMapping(entry1ff: nat, entry100: nat)
      requires Valid() && entry1ff < SIZE_LIMIT && entry100 < SIZE_LIMIT
      modifies mem
      ensures Valid() && KernelEntry(0x1ff) == entry1ff && KernelEntry(0x100) == entry100
      ensures forall i {:trigger KernelEntry(i)} :: 256 <= i < ENTRIES && i != 0x1ff && i != 0x100 ==>
        KernelEntry(i) == old(KernelEntry(i))
    {
      hide Trees, WordAt;
      StoreKernelEntry(0x1ff, entry1ff);
      StoreKernelEntry(0x100, entry100);
    }

    method StoreKernelEntry(k: nat, w: nat)
      requires Valid() && 256 <= k < ENTRIES && w < SIZE_LIMIT
      modifies mem
      ensures Valid() && KernelEntry(k) == w
      ensures forall i {:trigger KernelEntry(i)} :: 256 <= i < ENTRIES && i != k ==>
        KernelEntry(i) == old(KernelEntry(i))
    {
      hide PageAllocator.Valid, PageAllocator.Agreement, PteWord, WordAt, ByteAt, EntryWord, Child, Parent;
      StoreEntry(mem, base + 8 * k, w, table[ROOT], k);
      assert old(NodeOk(ROOT));
      forall n, i | n in table && UserEntry(n, i)
        ensures EntryOk(n, i)
      {
        assert old(EntryOk(n, i)) && old(NodeOk(n)) && old(Separate(n, ROOT));
        assert n == ROOT ==> i < 256;
      }
      forall u | u in pages
        ensures PageOk(u)
      {
        assert old(PageOk(u));
      }
    }

    lemma TablesOwned()
      requires Valid()
      ensures forall n :: n in table ==> Owned(table[n])
      ensures forall p :: p in data ==> Owned(p)
      ensures alloc.types.Length == alloc.nrPages <= MAX_PAGES && mem.Length == alloc.nrPages * PAGE_SIZE
    {
      hide PageAllocator.Valid, EntryOk, PageOk;
      forall n | n in table
        ensures Owned(table[n])
      {
        assert NodeOk(n);
      }
    }

    /** A run taken from the page allocator is set aside for data. */
    ghost method TakeData(pgd: nat, order: nat)
      requires Valid() && forall p :: pgd <= p < pgd + Pow2(order) ==> Owned(p)
      requires forall n :: n in table ==> !(pgd <= table[n] < pgd + Pow2(order))
      modifies this`data
      ensures Valid() && data == old(data) + Run(pgd, order)
      ensures forall p :: p in data <==> p in old(data) || pgd <= p < pgd + Pow2(order)
    {
      hide PageAllocator.Valid, PageAllocator.Agreement, PteWord, WordAt, EntryWord, Pow2;
      data := data + Run(pgd, order);
      assert forall p :: p in Run(pgd, order) <==> InRun(p, pgd, order);
      forall n, i | n in table && UserEntry(n, i)
        ensures EntryOk(n, i)
      {
        assert old(EntryOk(n, i));
      }
      forall n | n in table
        ensures NodeOk(n)
      {
        assert old(NodeOk(n));
      }
      forall m, k | m in table && k in table
        ensures Separate(m, k)
      {
        assert old(Separate(m, k));
      }
      forall u | u in pages
        ensures PageOk(u)
      {
        assert old(PageOk(u));
      }
    }

    /** The n pages from v0 on are mapped to consecutive frames from pgd on, for the user to read and write. */
    ghost predicate RunMapped(v0: nat, pgd: nat, n: nat)
      reads this
    {
      forall v: nat {:trigger PteOf(pages, v)} :: v0 <= v < v0 + n ==>
        PteOf(pages, v) == Pte(pgd + (v - v0), true, true, true)
    }

    /** Maps the pages from va's on to the pages of the run at pgd, one after the other. */
    method MapRun(va: nat, pgd: nat, order: nat) returns (ok: bool)
      requires Valid() && va < SIZE_LIMIT && PageOf(va) + Pow2(order) <= USER_PAGES
        && pgd + Pow2(order) <= alloc.nrPages
      modifies this`allocations, this`table, this`pages, mem, alloc.Footprint()
      ensures Valid() && Undisturbed()
      ensures forall v: nat :: !(PageOf(va) <= v < PageOf(va) + Pow2(order)) ==> PteOf(pages, v) == PteOf(old(pages), v)
      ensures ok ==> RunMapped(PageOf(va), pgd, Pow2(order))
      ensures Spared(old(Now()), Now())
      ensures ok <==> old(TablesFit(PageOf(va), Pow2(order)))
      ensures ok ==> |FreeFrames()| == |old(FreeFrames())| - Missing(old(table), Paths(PageOf(va), Pow2(order)))
    {
      hide Spared, Now, Missing, Path, Paths, PageAllocator.Valid, PageAllocator.Agreement, PteWord, WordAt, ByteAt,
        Trees, PageOf,
        Pow2, UserHalf, PteOf;
      TablesOwned();
      NoPaths(table, PageOf(va));
      SparedSelf(Now());
      var vbase: nat, pbase: nat := va, pgd * PAGE_SIZE;
      for i := 0 to Pow2(order)
        invariant Valid() && Undisturbed()
        invariant vbase < SIZE_LIMIT && PageOf(vbase) == PageOf(va) + i && pbase == (pgd + i) * PAGE_SIZE
        invariant forall v: nat :: !(PageOf(va) <= v < PageOf(va) + i) ==> PteOf(pages, v) == PteOf(old(pages), v)
        invariant RunMapped(PageOf(va), pgd, i)
        invariant Spared(old(Now()), Now())
        invariant table.Keys == old(table.Keys) + Paths(PageOf(va), i)
        invariant |FreeFrames()| == |old(FreeFrames())| - Missing(old(table), Paths(PageOf(va), i))
      {
        OnePathMore(old(table), table, PageOf(va), i);
        FewerPathsMissing(old(table), PageOf(va), i + 1, Pow2(order));
        InUser(vbase);
        UpdatedPte(pages, PageOf(vbase), Pte(pgd + i, true, true, true));
        ghost var m := Now();
        ok := InsertMapping(vbase, pbase, MappingFlags(true, true, true));
        SparedTwice(old(Now()), m, Now());
        if !ok {
          return;
        }
        NextPage(vbase);
        vbase := (vbase + PAGE_SIZE) % SIZE_LIMIT;
        pbase := pbase + PAGE_SIZE;
      }
      ok := true;
    }

    /**
     Maps nrPages pages, rounded up to a power of two, to one run of cleared physical pages. A count of zero is
     refused; the system halts exactly when there is no such run or what it leaves is too little for the tables.
     */
    method AllocateVirt(va: nat, nrPages: CInt) returns (r: VirtOutcome)
      requires Valid() && va < SIZE_LIMIT && (nrPages > 0 ==> PageOf(va) + Pow2(OrderFor(nrPages)) <= USER_PAGES)
      modifies this, mem, alloc.Footprint()
      ensures Valid() && base == old(base) && Spared(old(Now()), Now())
      ensures forall p :: p in old(data) ==> p in data
      ensures forall p :: p in data && p !in old(data) ==>
        0 < p < alloc.types.Length && old(alloc.types[p]) == AVAILABLE
      ensures r.Refused? <==> nrPages == 0
      ensures r.Mapped? <==> nrPages != 0 && old(CanMap(va, nrPages))
      ensures r.Mapped? ==> var n := Pow2(OrderFor(nrPages));
                |FreeFrames()| == |old(FreeFrames())| - n - Missing(old(table), Paths(PageOf(va), n))
      ensures r.Refused? ==> unchanged(this) && unchanged(mem)
      ensures forall p, k {:trigger ByteAt(mem, p, k)} :: p in old(data) && InMemory(mem, p) && 0 <= k < PAGE_SIZE ==>
                ByteAt(mem, p, k) == old(ByteAt(mem, p, k))
      ensures nrPages > 0 ==> forall v: nat :: !(PageOf(va) <= v < PageOf(va) + Pow2(OrderFor(nrPages))) ==>
        PteOf(pages, v) == PteOf(old(pages), v)
      ensures nrPages <= 0 ==> pages == old(pages)
      ensures r.Mapped? ==> var n := Pow2(OrderFor(nrPages));
        && nrPages <= n && r.pgd + n <= alloc.nrPages && data == old(data) + Run(r.pgd, OrderFor(nrPages))
        && RunMapped(PageOf(va), r.pgd, n)
        && (forall p :: r.pgd <= p < r.pgd + n ==> old(alloc.types[p]) == AVAILABLE && p !in old(data))
        && (forall p, k {:trigger ByteAt(mem, p, k)} ::
          r.pgd <= p < r.pgd + n && InMemory(mem, p) && 0 <= k < PAGE_SIZE ==> ByteAt(mem, p, k) == 0)
    {
      hide Spared, Now, PageAllocator.Valid, PageAllocator.Agreement, PteWord, WordAt, ByteAt, Trees, PageOf, Pow2,
        UserHalf, Run,
        RunMapped, OrderFor, CanAllocate, Missing, Path, Paths, Taken;
      ghost var m0 := Now();
      SparedSelf(m0);
      if nrPages == 0 {
        return Refused;
      }
      var order := OrderFor(nrPages);
      OrderRange(nrPages);
      TablesOwned();
      NoSuchOrder(alloc.algorithm.Free(), order);
      var phys := AllocatePhys(order);
      if phys.NullTagged? {
        return Halted;
      }
      TakenSize(old(FreeFrames()), FreeFrames(), phys.pgd, order);
      TakeData(phys.pgd, order);
      assert forall p, k {:trigger ByteAt(mem, p, k)} ::
        phys.pgd <= p < phys.pgd + Pow2(order) && InMemory(mem, p) && 0 <= k < PAGE_SIZE ==>
               ByteAt(mem, p, k) == 0;
      assert forall p, k {:trigger ByteAt(mem, p, k)} :: p in old(data) && InMemory(mem, p) && 0 <= k < PAGE_SIZE ==>
                ByteAt(mem, p, k) == old(ByteAt(mem, p, k));
      ghost var m1 := Now();
      var ok := MapRun(va, phys.pgd, order);
      SparedTwice(m0, m1, Now());
      r := if ok then Mapped(phys.pgd) else Halted;
    }

    /** A run for nrPages pages is free, and besides it a page for each table they lack. */
    ghost predicate CanMap(va: nat, nrPages: CInt)
      reads this`table, alloc.algorithm
    {
      var order := OrderFor(nrPages);
      && CanAllocate(FreeFrames(), order)
      && Missing(table, Paths(PageOf(va), Pow2(order))) + Pow2(order) <= |FreeFrames()|
    }

    /** No table lies in the n bytes of memory from pa on. */
    ghost predicate ClearOfTables(pa: nat, n: nat)
      reads this`table
    {
      forall m :: m in table ==> (table[m] + 1) * PAGE_SIZE <= pa || pa + n <= table[m] * PAGE_SIZE
    }

    /** Copies src to where the page of destVa is mapped, running on in physical memory at the end of the page. */
    method CopyTo(destVa: nat, src: seq<Byte>) returns (ok: bool)
      requires Valid() && UserHalf(destVa)
      requires var t := Translate(destVa); t.Some? ==> t.value + |src| <= mem.Length && ClearOfTables(t.value, |src|)
      modifies mem
      ensures Valid() && (ok <==> Translate(destVa).Some?)
      ensures !ok ==> unchanged(mem)
      ensures ok ==> var pa := Translate(destVa).value;
                forall a :: 0 <= a < mem.Length ==> mem[a] == if pa <= a < pa + |src| then src[a - pa] else old(mem[a])
    {
      hide PageAllocator.Valid, PageAllocator.Agreement, PteWord, Load, EntryWord, Translated, PageOf;
      var t := GetMapping(destVa);
      if t.None? {
        return false;
      }
      var pa := t.value;
      Copy(mem, pa, src);
      forall n, i | n in table && UserEntry(n, i)
        ensures EntryOk(n, i)
      {
        var a := EntryAddress(table[n], i);
        assert old(EntryOk(n, i));
        assert a + 8 <= pa || pa + |src| <= a;
        assert WordAt(mem, table[n], i) == old(WordAt(mem, table[n], i));
      }
      forall u | u in pages
        ensures PageOk(u)
      {
        assert old(PageOk(u));
      }
      return true;
    }

    /** The byte behind the mapped address va is b. */
    ghost predicate ReadsAt(va: nat, b: Byte)
      reads this, mem
    {
      var t := Translate(va);
      t.Some? && t.value < mem.Length && mem[t.value] == b
    }

    /** A run of pages set aside for data is clear of tables. */
    lemma DataClear(pgd: nat, n: nat, pa: nat, size: nat)
      requires Valid() && pgd * PAGE_SIZE <= pa && pa + size <= (pgd + n) * PAGE_SIZE
      requires forall p :: pgd <= p < pgd + n ==> p in data
      ensures ClearOfTables(pa, size)
    {
      hide PageAllocator.Valid, Entries;
      forall m | m in table
        ensures (table[m] + 1) * PAGE_SIZE <= pa || pa + size <= table[m] * PAGE_SIZE
      {
        assert NodeOk(m);
      }
    }
  }

  lemma NoPaths(table: map<Node, nat>, v: nat)
    ensures Paths(v, 0) == {} && Missing(table, Paths(v, 0)) == 0
  {
  }

  /**
   Mapping a region and copying into it, which works whenever there is room: the bytes read back through the mapping
   are the ones written.
   */
  method MapAndCopy(vma: VMA, va: nat, nrPages: CInt, offset: nat, src: seq<Byte>) returns (r: VirtOutcome)
    requires vma.Valid() && va < SIZE_LIMIT && nrPages > 0 && PageOf(va) + Pow2(OrderFor(nrPages)) <= USER_PAGES
    requires va % PAGE_SIZE + offset + |src| <= nrPages * PAGE_SIZE && va + offset + |src| < SIZE_LIMIT
    modifies vma, vma.mem, vma.alloc.Footprint()
    ensures vma.Valid()
    ensures r.Mapped? <==> old(vma.CanMap(va, nrPages))
    ensures r.Mapped? ==> forall i :: 0 <= i < |src| ==> vma.ReadsAt(va + offset + i, src[i])
  {
    hide VMA.Nodes, VMA.Entries, PageOf, Pow2, OrderFor, Translated, UserHalf, Run, InRun, VMA.RunMapped, VMA.Wired,
      PageAllocator.Valid, Missing, Path, Paths, CanAllocate, VMA.CanMap;
    r := vma.AllocateVirt(va, nrPages);
    if r.Mapped? && |src| > 0 {
      var n := Pow2(OrderFor(nrPages));
      RegionTranslated(vma, va, r.pgd, n, offset);
      RunData(vma, r.pgd, OrderFor(nrPages));
      var pa := r.pgd * PAGE_SIZE + va % PAGE_SIZE + offset;
      vma.DataClear(r.pgd, n, pa, |src|);
      vma.TablesOwned();
      var ok := vma.CopyTo(va + offset, src);
      forall i | 0 <= i < |src|
        ensures vma.ReadsAt(va + offset + i, src[i])
      {
        RegionTranslated(vma, va, r.pgd, n, offset + i);
      }
    }
  }

  // ---------- several address spaces ----------

  datatype Pair = Pair(v: VMA, w: VMA)

  /** Two address spaces on the same memory with pages of their own. */
  ghost predicate Beside(v: VMA, w: VMA)
    reads v, w
  {
    && v != w && v.alloc == w.alloc && v.mem == w.mem
    && (forall n, m :: n in v.table && m in w.table ==> v.table[n] != w.table[m])
    && (forall n :: n in v.table ==> v.table[n] !in w.data)
    && (forall m :: m in w.table ==> w.table[m] !in v.data)
    && v.data !! w.data
  }

  /** The bytes of the pages set aside for data. */
  ghost function DataBytes(v: VMA): map<int, seq<Byte>>
    reads v, v.mem, v.alloc.types
  {
    map p | p in v.data && HasPage(v.mem[..], p) :: PageBytes(v.mem[..], p)
  }

  /** What v has done without touching what belongs to others leaves w as it was. */
  twostate lemma OtherStays(b: Pair)
    requires old(b.v.Valid()) && old(b.w.Valid()) && old(Beside(b.v, b.w)) && b.v.Valid()
    requires unchanged(b.w) && Spared(old(b.v.Now()), b.v.Now())
    ensures b.w.Valid() && DataBytes(b.w) == old(DataBytes(b.w))
    ensures forall n, m :: n in b.v.table && m in b.w.table ==> b.v.table[n] != b.w.table[m]
    ensures forall n :: n in b.v.table ==> b.v.table[n] !in b.w.data
  {
    hide PageBytes, VMA.Entries, PageAllocator.Valid, PageAllocator.Agreement;
    var x, y := old(b.v.Now()), b.v.Now();
    forall p | old(b.w.Owned(p))
      ensures b.w.Owned(p) && (!TableIn(x, p) && HasPage(x.bytes, p) ==> PageBytes(x.bytes, p) == PageBytes(y.bytes, p))
    {
      assert SparedPage(x, y, p);
    }
    forall m | m in b.w.table
      ensures old(b.w.Owned(b.w.table[m])) && !TableIn(x, b.w.table[m])
    {
      assert old(b.w.NodeOk(m));
    }
    forall n, q | n in b.v.table && q == b.v.table[n]
      ensures if n in old(b.v.table) then q == old(b.v.table[n]) else !old(b.w.Owned(q))
    {
      assert TableOrigin(x, y, n);
    }
    b.w.StaysValid();
  }

  /** Mapping a page in one address space leaves the other as it was. */
  method MapBeside(v: VMA, w: VMA, va: nat, pa: nat, flags: MappingFlags) returns (ok: bool)
    requires v.Valid() && w.Valid() && Beside(v, w) && UserHalf(va) && pa < SIZE_LIMIT
    modifies v, v.mem, v.alloc.Footprint()
    ensures v.Valid() && w.Valid() && Beside(v, w)
    ensures w.pages == old(w.pages) && w.table == old(w.table) && DataBytes(w) == old(DataBytes(w))
    ensures PathMade(old(v.table), v.table, old(v.FreeFrames()), v.FreeFrames(), PageOf(va), ok)
    ensures v.pages == if ok then old(v.pages)[PageOf(va) := Remapped(PteOf(old(v.pages), PageOf(va)), pa, flags)]
                       else old(v.pages)
  {
    hide VMA.Valid, Spared, DataBytes, PathMade, Remapped, PageOf, PteOf;
    NotInFootprint(v, w);
    ok := v.InsertMapping(va, pa, flags);
    OtherStays(Pair(v, w));
  }

  /** So does mapping and clearing a whole region. */
  method AllocateBeside(v: VMA, w: VMA, va: nat, nrPages: CInt) returns (r: VirtOutcome)
    requires v.Valid() && w.Valid() && Beside(v, w)
    requires va < SIZE_LIMIT && (nrPages > 0 ==> PageOf(va) + Pow2(OrderFor(nrPages)) <= USER_PAGES)
    modifies v, v.mem, v.alloc.Footprint()
    ensures v.Valid() && w.Valid() && Beside(v, w)
    ensures w.pages == old(w.pages) && w.table == old(w.table) && DataBytes(w) == old(DataBytes(w))
    ensures r.Mapped? <==> nrPages != 0 && old(v.CanMap(va, nrPages))
    ensures r.Mapped? ==> v.RunMapped(PageOf(va), r.pgd, Pow2(OrderFor(nrPages)))
  {
    hide VMA.Valid, Spared, DataBytes, PageOf, Pow2, OrderFor, VMA.CanMap, VMA.RunMapped, Run;
    NotInFootprint(v, w);
    OwnPages(w);
    r := v.AllocateVirt(va, nrPages);
    OtherStays(Pair(v, w));
    forall p | p in v.data && p !in old(v.data)
      ensures p !in w.data && forall m :: m in w.table ==> w.table[m] != p
    {
      assert old(v.alloc.types[p]) == AVAILABLE;
    }
  }

  lemma NotInFootprint(v: VMA, w: VMA)
    requires v.Valid() && w.Valid() && Beside(v, w)
    ensures w !in v.alloc.Footprint() && v.mem !in v.alloc.Footprint()
  {
  }

  lemma OwnPages(w: VMA)
    requires w.Valid()
    ensures forall m :: m in w.table ==> w.alloc.types.Length > w.table[m] > 0 && w.alloc.types[w.table[m]] == ALLOCATED
    ensures forall p :: p in w.data ==> 0 < p < w.alloc.types.Length && w.alloc.types[p] == ALLOCATED
  {
    hide PageAllocator.Valid, VMA.Entries;
    forall m | m in w.table
      ensures w.Owned(w.table[m])
    {
      assert w.NodeOk(m);
    }
    assert forall p :: p in w.data ==> w.Owned(p);
  }

  lemma RunData(vma: VMA, pgd: nat, order: nat)
    requires Run(pgd, order) <= vma.data
    ensures forall p :: pgd <= p < pgd + Pow2(order) ==> p in vma.data
  {
    forall p | pgd <= p < pgd + Pow2(order)
      ensures p in vma.data
    {
      assert InRun(p, pgd, order);
      assert p in Run(pgd, order);
    }
  }

  /** In a region mapped to one run, addresses and physical addresses advance together. */
  lemma RegionTranslated(vma: VMA, va: nat, pgd: nat, n: nat, k: nat)
    requires vma.RunMapped(PageOf(va), pgd, n) && PageOf(va) + n <= USER_PAGES
    requires va % PAGE_SIZE + k < n * PAGE_SIZE
    ensures UserHalf(va + k) && vma.Translate(va + k) == Some(pgd * PAGE_SIZE + va % PAGE_SIZE + k)
  {
    hide PageOf;
    PageOfSum(va, k);
    assert PteOf(vma.pages, PageOf(va + k)).present;
  }

  /** The page and offset of an address k bytes further on. */
  lemma PageOfSum(va: nat, k: nat)
    requires PageOf(va) * PAGE_SIZE + va % PAGE_SIZE + k < VA_SPACE
    ensures PageOf(va + k) == PageOf(va) + (va % PAGE_SIZE + k) / PAGE_SIZE
    ensures (va + k) % PAGE_SIZE == (va % PAGE_SIZE + k) % PAGE_SIZE
  {
    var x := va % VA_SPACE;
    WholePages(va);
    ModUnique(va + k, VA_SPACE, va / VA_SPACE, x + k);
    AddOffset(x, k);
    AddOffset(va, k);
  }

  lemma AddOffset(y: nat, k: nat)
    ensures (y + k) / PAGE_SIZE == y / PAGE_SIZE + (y % PAGE_SIZE + k) / PAGE_SIZE
    ensures (y + k) % PAGE_SIZE == (y % PAGE_SIZE + k) % PAGE_SIZE
  {
    var o := y % PAGE_SIZE + k;
    QuotientOf(y + k, PAGE_SIZE, y / PAGE_SIZE + o / PAGE_SIZE, o % PAGE_SIZE);
  }

  // ---------- copying past the end of a page ----------

  /** The byte a copy to va puts i places on is where va + i is mapped. */
  ghost predicate Lands(pages: map<nat, Pte>, va: nat, i: nat) {
    var t := Translated(pages, va);
    t.Some? && Translated(pages, va + i) == Some(t.value + i)
  }

  /** Page v + j is mapped j frames behind page v. */
  ghost predicate Follows(pages: map<nat, Pte>, v: nat, j: nat) {
    var p := PteOf(pages, v + j);
    p.present && p.frame == PteOf(pages, v).frame + j
  }

  /** A copy of n bytes lands where the destination is mapped iff its pages are mapped to consecutive frames. */
  lemma CopyExact(pages: map<nat, Pte>, va: nat, n: nat)
    requires 0 < n && va % VA_SPACE + n <= VA_SPACE && Translated(pages, va).Some?
    ensures (forall i: nat :: i < n ==> Lands(pages, va, i)) <==>
            (forall j: nat :: j <= (va % PAGE_SIZE + n - 1) / PAGE_SIZE ==> Follows(pages, PageOf(va), j))
  {
    hide PageOf, PteOf;
    WholePages(va);
    var o := va % PAGE_SIZE;
    if forall i: nat :: i < n ==> Lands(pages, va, i) {
      forall j: nat | j <= (o + n - 1) / PAGE_SIZE
        ensures Follows(pages, PageOf(va), j)
      {
        if j > 0 {
          var i: nat := j * PAGE_SIZE - o;
          assert Lands(pages, va, i);
          PageOfSum(va, i);
        }
      }
    }
    if forall j: nat :: j <= (o + n - 1) / PAGE_SIZE ==> Follows(pages, PageOf(va), j) {
      forall i: nat | i < n
        ensures Lands(pages, va, i)
      {
        assert Follows(pages, PageOf(va), (o + i) / PAGE_SIZE);
        PageOfSum(va, i);
      }
    }
  }

  lemma WholePages(va: nat)
    ensures va % VA_SPACE % PAGE_SIZE == va % PAGE_SIZE
    ensures va % VA_SPACE == PageOf(va) * PAGE_SIZE + va % PAGE_SIZE
  {
    assert va % VA_SPACE % PAGE_SIZE == va % PAGE_SIZE;
  }

  /** Two neighbouring pages mapped apart: a copy over their border ends up in a foreign frame. */
  lemma CopyAcross()
    ensures var pages := map[0 := Pte(10, true, true, true), 1 := Pte(20, true, true, true)];
            Translated(pages, 4095).Some? && !Lands(pages, 4095, 1)
  {
    assert PageOf(4096) == 1 && PageOf(4095) == 0;
  }
}
