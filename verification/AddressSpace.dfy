/** The sandbox's address window: which events an address-space call can cause, and what holds in every
    run of them.  The heap grows up from `base`, mappings grow down from the top of the same window. */
module AddressSpace {
  import opened Common

  const APP_MAX_ELF_VADDR: nat := 0x7000_0000
  const APP_MMAP_LEN: nat := 0x2_0000_0000
  const APP_STACK_SIZE: nat := 0x80_0000
  /** The kernel refuses ranges that reach beyond this address. */
  const TASK_SIZE: nat := 0x7fff_ffff_f000

  function PgAddr(x: nat): (r: nat) { x - x % PGSIZE }

  /** PGADDR(len + PGSIZE - 1), in 64-bit arithmetic. */
  function RoundUp(len: nat): (r: nat) { PgAddr((len + PGSIZE - 1) % WORD) }

  /** mem_ref_is_safe, in 64-bit arithmetic; `dune` is the DUNE compile-time switch. */
  predicate MemRefIsSafe(base: nat, dune: bool, ptr: nat, len: nat) {
    var end := (ptr + len) % WORD;
    || (len <= APP_MAX_ELF_VADDR && end <= APP_MAX_ELF_VADDR)
    || (dune && len <= APP_MMAP_LEN && base <= ptr && end < base + APP_MMAP_LEN)
  }

  /** A range the kernel will map or unmap: aligned, not empty, inside the user address space. */
  predicate Accepts(addr: nat, len: nat) {
    addr % PGSIZE == 0 && 0 < len && addr + len <= TASK_SIZE
  }

  predicate Touches(addr: nat, len: nat, page: nat) {
    addr / PGSIZE <= page < (addr + len + PGSIZE - 1) / PGSIZE
  }

  /** The pages of a range, the last one possibly in part. */
  function PagesOf(addr: nat, len: nat): (r: set<nat>) {
    set p: nat | p < (addr + len + PGSIZE - 1) / PGSIZE && Touches(addr, len, p)
  }

  /** A range the allocator handed out: [addr, addr + len) is reserved, [low, addr + len) was mapped. */
  datatype Block = Block(addr: nat, len: nat, low: nat)

  /** brk and mm are brk_len and mmap_len; kernel and table are the pages present in the process's mappings
      and in pgroot; handed and placed record the ranges given out by the allocator and at explicit addresses. */
  datatype Space = Space(
    base: nat, dune: bool, brk: nat, mm: nat,
    kernel: set<nat>, table: set<nat>,
    handed: seq<Block>, placed: set<nat>)
  {
    /** umm_get_map_pos; APP_MMAP_BASE_OFF equals APP_MMAP_LEN. */
    function Pos(): (r: int) { base + APP_MMAP_LEN - mm }

    /** umm_space_left, on the unrounded length. */
    predicate SpaceLeft(len: nat) { (brk + mm + len) % WORD < APP_MMAP_LEN }

    ghost predicate InWindow(page: nat) { base <= page * PGSIZE < base + APP_MMAP_LEN }
  }

  // ---------- Events ----------

  datatype Event =
    | Heap(len: nat)
    | Hand(len: nat, skip: nat)
    | Place(addr: nat, len: nat)
    | Undone(addr: nat, len: nat)
    | Unmap(addr: nat, len: nat)
    | Stray(addr: nat, len: nat)

  /** What an event does.  Heap: brk moves the end of the heap.  Hand: the allocator takes `len` bytes, rounded up,
      below the last mapping and leaves the lowest `skip` bytes unmapped.  Place: a mapping at an explicit safe address.
      Undone: the kernel mapped a range, pgroot refused it, and it was unmapped again.  Stray: the kernel attached a
      segment at the page below an unaligned address, and it stays although the call fails. */
  ghost function Apply(s: Space, e: Event): (s': Space) {
    match e
    case Heap(len) =>
      if len < s.brk then
        var pages := PagesOf(s.base + len, s.brk - len);
        s.(brk := len, kernel := s.kernel - pages, table := s.table - pages)
      else
        var pages := PagesOf(s.base + s.brk, len - s.brk);
        s.(brk := len, kernel := s.kernel + pages, table := s.table + pages)
    case Hand(len, skip) =>
      if skip <= len && RoundUp(len) <= s.Pos() then
        var addr := s.Pos() - RoundUp(len);
        var pages := PagesOf(addr + skip, len - skip);
        s.(mm := s.mm + RoundUp(len), kernel := s.kernel + pages, table := s.table + pages,
           handed := s.handed + [Block(addr, RoundUp(len), addr + skip)])
      else s
    case Place(addr, len) =>
      var pages := PagesOf(addr, len);
      s.(kernel := s.kernel + pages, table := s.table + pages, placed := s.placed + pages)
    case Undone(addr, len) => s.(kernel := s.kernel - PagesOf(addr, len))
    case Unmap(addr, len) => s.(kernel := s.kernel - PagesOf(addr, len), table := s.table - PagesOf(addr, len))
    case Stray(addr, len) =>
      s.(kernel := s.kernel + PagesOf(PgAddr(addr), len), placed := s.placed + PagesOf(PgAddr(addr), len))
  }

  /** When an event can happen. */
  ghost predicate Enabled(s: Space, e: Event) {
    match e
    case Heap(len) => len % PGSIZE == 0 && s.brk + s.mm + len < APP_MMAP_LEN
    case Hand(len, skip) =>
      && 0 < len && s.brk + s.mm + len < APP_MMAP_LEN && skip % PGSIZE == 0 && skip < len
      && RoundUp(len) <= s.Pos()
    case Place(addr, len) => Accepts(addr, len) && MemRefIsSafe(s.base, s.dune, addr, len)
    case Undone(_, _) => true
    case Unmap(_, _) => true
    case Stray(addr, len) => Accepts(PgAddr(addr), len) && MemRefIsSafe(s.base, s.dune, addr, len)
  }

  ghost predicate Step(s: Space, e: Event, s': Space) { Enabled(s, e) && s' == Apply(s, e) }

  ghost function After(s: Space, es: seq<Event>): (s': Space) {
    if es == [] then s else Apply(After(s, es[..|es| - 1]), es[|es| - 1])
  }

  /** A run of events; a call causes none, one or two of them. */
  ghost predicate Run(s: Space, es: seq<Event>, s': Space) {
    s' == After(s, es) && forall i :: 0 <= i < |es| ==> Enabled(After(s, es[..i]), es[i])
  }

  lemma {:induction false} AfterConcat(s: Space, a: seq<Event>, b: seq<Event>)
    ensures After(s, a + b) == After(After(s, a), b)
  {
    if b == [] {
      assert a + b == a;
    } else {
      var n := |b| - 1;
      assert (a + b)[..|a + b| - 1] == a + b[..n];
      AfterConcat(s, a, b[..n]);
    }
  }

  lemma RunConcat(s: Space, a: seq<Event>, m: Space, b: seq<Event>, s': Space)
    requires Run(s, a, m) && Run(m, b, s')
    ensures Run(s, a + b, s')
  {
    hide Apply, Enabled;
    AfterConcat(s, a, b);
    forall i | 0 <= i < |a + b| ensures Enabled(After(s, (a + b)[..i]), (a + b)[i]) {
      if i < |a| {
        assert (a + b)[..i] == a[..i];
      } else {
        assert (a + b)[..i] == a + b[..i - |a|];
        AfterConcat(s, a, b[..i - |a|]);
      }
    }
  }

  lemma RunOne(s: Space, e: Event, s': Space)
    requires Step(s, e, s')
    ensures Run(s, [e], s')
  {
    assert [e][..0] == [];
  }

  /** A run is a shorter run and one step. */
  lemma RunLast(s: Space, es: seq<Event>, s': Space)
    requires Run(s, es, s') && es != []
    ensures var n := |es| - 1; Run(s, es[..n], After(s, es[..n])) && Step(After(s, es[..n]), es[n], s')
  {
    hide Apply, Enabled;
    var n := |es| - 1;
    forall i | 0 <= i < n ensures Enabled(After(s, es[..n][..i]), es[..n][i]) {
      assert es[..n][..i] == es[..i];
    }
  }

  // ---------- Invariant ----------

  ghost predicate Layout(s: Space) {
    && s.base % PGSIZE == 0 && 0x4_0000_0000 <= s.base && s.base + APP_MMAP_LEN <= TASK_SIZE
    && s.brk % PGSIZE == 0 && s.mm % PGSIZE == 0
    && s.brk + s.mm <= APP_MMAP_LEN
  }

  /** Every block lies in the mapping arena, below all earlier ones. */
  ghost predicate Stacked(s: Space) {
    && (forall i :: 0 <= i < |s.handed| ==>
          && s.handed[i].addr % PGSIZE == 0 && s.handed[i].len % PGSIZE == 0 && s.handed[i].low % PGSIZE == 0
          && s.Pos() <= s.handed[i].addr <= s.handed[i].low < s.handed[i].addr + s.handed[i].len
             <= s.base + APP_MMAP_LEN)
    && (forall i, j :: 0 <= i < j < |s.handed| ==> s.handed[j].addr + s.handed[j].len <= s.handed[i].addr)
  }

  ghost predicate InHeap(s: Space, page: nat) { s.base <= page * PGSIZE < s.base + s.brk }

  ghost predicate InBlock(b: Block, page: nat) { b.low <= page * PGSIZE < b.addr + b.len }

  /** Window pages are mapped only as heap, as part of a block, or where an explicit address asked for it. */
  ghost predicate Accounted(s: Space) {
    forall p :: p in s.kernel && s.InWindow(p) ==>
      InHeap(s, p) || p in s.placed || exists i :: 0 <= i < |s.handed| && InBlock(s.handed[i], p)
  }

  ghost predicate Valid(s: Space) { Layout(s) && Stacked(s) && Accounted(s) }

  /** Before the first call: nothing of the window is mapped. */
  ghost predicate Init(s: Space) {
    && s.base % PGSIZE == 0 && 0x4_0000_0000 <= s.base && s.base + APP_MMAP_LEN <= TASK_SIZE
    && s.brk == 0 && s.mm == 0 && s.handed == [] && s.placed == {}
    && s.kernel == s.table && forall p :: p in s.kernel ==> !s.InWindow(p)
  }

  /** The unrounded strict check still gives the rounded bound, because everything else is a page multiple. */
  lemma RoundedFits(used: nat, len: nat)
    requires used % PGSIZE == 0 && used + len < APP_MMAP_LEN
    ensures RoundUp(len) % PGSIZE == 0 && len <= RoundUp(len) < len + PGSIZE
    ensures used + RoundUp(len) <= APP_MMAP_LEN
  {
    assert (len + PGSIZE - 1) % WORD == len + PGSIZE - 1;
  }

  lemma PageMultiples(a: int, b: int)
    requires a % PGSIZE == 0 && b % PGSIZE == 0
    ensures (a + b) % PGSIZE == 0 && (a - b) % PGSIZE == 0
  {
  }

  lemma PageInRange(addr: nat, len: nat, p: nat)
    requires addr % PGSIZE == 0
    ensures p in PagesOf(addr, len) <==> addr <= p * PGSIZE < addr + len
  {
  }

  /** The pages that start in the range were added to the map, and nothing else changed. */
  ghost predicate Entered(before: set<nat>, after: set<nat>, addr: nat, len: nat) {
    forall p :: p in after <==> p in before || addr <= p * 4096 < addr + len
  }

  /** They were removed from it, and nothing else changed. */
  ghost predicate Removed(before: set<nat>, after: set<nat>, addr: nat, len: nat) {
    forall p :: p in after <==> p in before && !(addr <= p * 4096 < addr + len)
  }

  /** One range was removed, then another added. */
  ghost predicate Replaced(before: set<nat>, after: set<nat>, oldAddr: nat, oldLen: nat, addr: nat, len: nat) {
    forall p :: p in after <==>
      (p in before && !(oldAddr <= p * 4096 < oldAddr + oldLen)) || addr <= p * 4096 < addr + len
  }

  lemma PagesEntered(m: set<nat>, addr: nat, len: nat)
    requires addr % PGSIZE == 0
    ensures Entered(m, m + PagesOf(addr, len), addr, len) && Removed(m, m - PagesOf(addr, len), addr, len)
  {
    hide PagesOf;
    forall p: nat ensures p in PagesOf(addr, len) <==> addr <= p * 4096 < addr + len { PageInRange(addr, len, p); }
  }

  lemma PagesReplaced(m: set<nat>, oldAddr: nat, oldLen: nat, addr: nat, len: nat)
    requires oldAddr % PGSIZE == 0 && addr % PGSIZE == 0
    ensures Replaced(m, m - PagesOf(oldAddr, oldLen) + PagesOf(addr, len), oldAddr, oldLen, addr, len)
  {
    hide PagesOf;
    PagesEntered(m, oldAddr, oldLen);
    PagesEntered(m - PagesOf(oldAddr, oldLen), addr, len);
  }

  /** What brk unmaps or maps is exactly the difference between the old heap and the new one. */
  lemma HeapPages(base: nat, brk: nat, len: nat, p: nat)
    requires base % PGSIZE == 0 && brk % PGSIZE == 0 && len % PGSIZE == 0 && base <= p * PGSIZE
    ensures len < brk ==> (p in PagesOf(base + len, brk - len) <==> base + len <= p * PGSIZE < base + brk)
    ensures brk <= len ==> (p in PagesOf(base + brk, len - brk) <==> base + brk <= p * PGSIZE < base + len)
  {
    PageMultiples(base, brk);
    PageMultiples(base, len);
    if len < brk {
      PageInRange(base + len, brk - len, p);
    } else {
      PageInRange(base + brk, len - brk, p);
    }
  }

  lemma HeapKeepsAccounted(s: Space, len: nat, s': Space)
    requires Layout(s) && Accounted(s) && Step(s, Heap(len), s')
    ensures Accounted(s')
  {
    hide PagesOf;
    forall p | p in s'.kernel && s'.InWindow(p)
      ensures InHeap(s', p) || p in s'.placed || exists i :: 0 <= i < |s'.handed| && InBlock(s'.handed[i], p)
    {
      HeapPages(s.base, s.brk, len, p);
      if p in s.kernel && !InHeap(s, p) && p !in s.placed {
        var i :| 0 <= i < |s.handed| && InBlock(s.handed[i], p);
        assert InBlock(s'.handed[i], p);
      }
    }
  }

  /** Where the next block goes. */
  lemma NextBlock(s: Space, len: nat, skip: nat)
    requires Layout(s) && 0 < len && s.brk + s.mm + len < APP_MMAP_LEN && skip % PGSIZE == 0 && skip < len
    ensures RoundUp(len) % PGSIZE == 0 && len <= RoundUp(len) && s.brk + s.mm + RoundUp(len) <= APP_MMAP_LEN
    ensures (s.Pos() - RoundUp(len)) % PGSIZE == 0 && (s.Pos() - RoundUp(len) + skip) % PGSIZE == 0
    ensures s.base + s.brk <= s.Pos() - RoundUp(len)
    ensures (s.mm + RoundUp(len)) % PGSIZE == 0
  {
    PageMultiples(s.brk, s.mm);
    RoundedFits(s.brk + s.mm, len);
    hide RoundUp;
    PageMultiples(s.mm, RoundUp(len));
    PageMultiples(s.base, APP_MMAP_LEN);
    PageMultiples(s.base + APP_MMAP_LEN, s.mm + RoundUp(len));
    PageMultiples(s.Pos() - RoundUp(len), skip);
  }

  lemma HandKeepsStacked(s: Space, len: nat, skip: nat, s': Space)
    requires Layout(s) && Stacked(s) && Step(s, Hand(len, skip), s')
    ensures Layout(s') && Stacked(s')
  {
    NextBlock(s, len, skip);
    hide RoundUp, PagesOf;
    var n := |s.handed|;
    forall i | 0 <= i < |s'.handed|
      ensures s'.handed[i].addr % PGSIZE == 0 && s'.handed[i].len % PGSIZE == 0 && s'.handed[i].low % PGSIZE == 0
      ensures s'.Pos() <= s'.handed[i].addr <= s'.handed[i].low < s'.handed[i].addr + s'.handed[i].len
              <= s'.base + APP_MMAP_LEN
    {
      if i < n { assert s'.handed[i] == s.handed[i]; }
    }
  }

  lemma HandKeepsAccounted(s: Space, len: nat, skip: nat, s': Space)
    requires Layout(s) && Accounted(s) && Step(s, Hand(len, skip), s')
    ensures Accounted(s')
  {
    NextBlock(s, len, skip);
    hide RoundUp, PagesOf;
    var n := |s.handed|;
    var b := s'.handed[n];
    forall p | p in s'.kernel && s'.InWindow(p)
      ensures InHeap(s', p) || p in s'.placed || exists i :: 0 <= i < |s'.handed| && InBlock(s'.handed[i], p)
    {
      if p in s.kernel {
        if !InHeap(s, p) && p !in s.placed {
          var i :| 0 <= i < |s.handed| && InBlock(s.handed[i], p);
          assert s'.handed[i] == s.handed[i];
        }
      } else {
        PageInRange(b.low, len - skip, p);
        assert InBlock(s'.handed[n], p);
      }
    }
  }

  /** Every event keeps the invariant. */
  lemma StepKeepsValid(s: Space, e: Event, s': Space)
    requires Valid(s) && Step(s, e, s')
    ensures Valid(s')
  {
    hide PagesOf, RoundUp;
    match e
    case Heap(len) =>
      assert Layout(s') && Stacked(s');
      HeapKeepsAccounted(s, len, s');
    case Hand(len, skip) =>
      HandKeepsStacked(s, len, skip, s');
      HandKeepsAccounted(s, len, skip, s');
    case Place(_, _) => assert Stacked(s'); assert Accounted(s');
    case Undone(_, _) => assert Stacked(s'); assert Accounted(s');
    case Unmap(_, _) => assert Stacked(s'); assert Accounted(s');
    case Stray(_, _) => assert Stacked(s'); assert Accounted(s');
  }

  lemma RunNone(s: Space, s': Space)
    requires Run(s, [], s')
    ensures s' == s
  {
  }

  lemma {:induction false} RunKeepsValid(s: Space, es: seq<Event>, s': Space)
    requires Valid(s) && Run(s, es, s')
    ensures Valid(s')
    ensures s'.base == s.base && s'.dune == s.dune && s.handed <= s'.handed
    decreases |es|
  {
    hide Valid, Enabled, Run;
    if es != [] {
      var n := |es| - 1;
      var m := After(s, es[..n]);
      RunLast(s, es, s');
      RunKeepsValid(s, es[..n], m);
      StepKeepsValid(m, es[n], s');
      assert m.handed <= s'.handed;
    } else {
      assert s' == s by { RunNone(s, s'); }
    }
  }

  lemma InitValid(s: Space)
    requires Init(s)
    ensures Valid(s)
  {
  }

  // ---------- Theorems over whole runs ----------

  /** In every run the counters stay page multiples that fit the window, so the heap ends below every mapping
      the allocator ever made and all of it lies inside the window. */
  lemma ArenasNeverOverlap(s: Space, es: seq<Event>, s': Space)
    requires Init(s) && Run(s, es, s')
    ensures s'.brk % 4096 == 0 && s'.mm % 4096 == 0 && s'.brk + s'.mm <= 0x2_0000_0000
    ensures forall i :: 0 <= i < |s'.handed| ==>
              && s'.base + s'.brk <= s'.handed[i].addr
              && s'.handed[i].addr + s'.handed[i].len <= s'.base + 0x2_0000_0000
  {
    InitValid(s);
    RunKeepsValid(s, es, s');
  }

  /** Ranges handed out at any two moments of a run are disjoint, whatever was unmapped in between. */
  lemma HandedOutOnce(s: Space, es: seq<Event>, s': Space, i: nat, j: nat, a: nat)
    requires Init(s) && Run(s, es, s') && i < |s'.handed| && j < |s'.handed| && i != j
    requires s'.handed[i].addr <= a < s'.handed[i].addr + s'.handed[i].len
    ensures !(s'.handed[j].addr <= a < s'.handed[j].addr + s'.handed[j].len)
  {
    InitValid(s);
    RunKeepsValid(s, es, s');
  }

  /** The lowest page of a block that skipped it is mapped only where an explicit address asked for it. */
  lemma GuardUnmapped(s: Space, es: seq<Event>, s': Space, i: nat)
    requires Init(s) && Run(s, es, s') && i < |s'.handed|
    requires s'.handed[i].addr < s'.handed[i].low
    ensures s'.handed[i].addr / PGSIZE in s'.kernel ==> s'.handed[i].addr / PGSIZE in s'.placed
  {
    InitValid(s);
    RunKeepsValid(s, es, s');
    var b := s'.handed[i];
    var g := b.addr / PGSIZE;
    assert g * PGSIZE == b.addr;
    if g in s'.kernel && g !in s'.placed {
      assert false;
    }
  }

  ghost predicate PlacedLow(s: Space) { forall p :: p in s.placed ==> p * PGSIZE < APP_MAX_ELF_VADDR }

  lemma StepPlaced(s: Space, e: Event)
    requires !s.dune && PlacedLow(s) && Enabled(s, e)
    ensures !Apply(s, e).dune && PlacedLow(Apply(s, e))
  {
    hide PagesOf, RoundUp;
    if e.Place? || e.Stray? {
      assert (e.addr + e.len) % WORD == e.addr + e.len;
      forall p | p in Apply(s, e).placed ensures p * PGSIZE < APP_MAX_ELF_VADDR {
        PageInRange(PgAddr(e.addr), e.len, p);
      }
    }
  }

  lemma {:induction false} RunPlaced(s: Space, es: seq<Event>, s': Space)
    requires Run(s, es, s') && !s.dune && PlacedLow(s)
    ensures !s'.dune && PlacedLow(s')
    decreases |es|
  {
    hide Enabled, Apply, PlacedLow;
    if es != [] {
      var n := |es| - 1;
      RunLast(s, es, s');
      RunPlaced(s, es[..n], After(s, es[..n]));
      StepPlaced(After(s, es[..n]), es[n]);
    }
  }

  /** Without DUNE no explicit address reaches the window, so the stack's guard page stays unmapped in every run. */
  lemma StackGuardHolds(s: Space, es: seq<Event>, s': Space, i: nat)
    requires Init(s) && !s.dune && Run(s, es, s') && i < |s'.handed| && s'.handed[i].addr < s'.handed[i].low
    ensures s'.handed[i].addr / PGSIZE !in s'.kernel
  {
    GuardUnmapped(s, es, s', i);
    RunPlaced(s, es, s');
    InitValid(s);
    RunKeepsValid(s, es, s');
    assert s'.handed[i].addr / PGSIZE * PGSIZE == s'.handed[i].addr;
  }

  // ---------- Where process mappings and pgroot differ ----------

  /** The pages an event enters into both maps or removes from both. */
  ghost function Settled(s: Space, e: Event): (r: set<nat>) {
    match e
    case Heap(len) =>
      if len < s.brk then PagesOf(s.base + len, s.brk - len) else PagesOf(s.base + s.brk, len - s.brk)
    case Hand(len, skip) =>
      if skip <= len && RoundUp(len) <= s.Pos() then PagesOf(s.Pos() - RoundUp(len) + skip, len - skip) else {}
    case Place(addr, len) => PagesOf(addr, len)
    case Undone(_, _) => {}
    case Unmap(addr, len) => PagesOf(addr, len)
    case Stray(_, _) => {}
  }

  /** The pages an event takes from the process alone (`lost`) or gives to it alone. */
  ghost function OneSided(e: Event, lost: bool): (r: set<nat>) {
    if lost && e.Undone? then PagesOf(e.addr, e.len)
    else if !lost && e.Stray? then PagesOf(PgAddr(e.addr), e.len)
    else {}
  }

  /** Page p is in pgroot but not in the process (`lost`), or the other way round. */
  ghost predicate Differs(s: Space, p: nat, lost: bool) {
    if lost then p in s.table && p !in s.kernel else p in s.kernel && p !in s.table
  }

  /** Event i took page p from the process while pgroot had it, or gave it to the process while pgroot had it not, and
      no later event settled p or had the opposite effect. */
  ghost predicate CausedAt(s: Space, es: seq<Event>, i: nat, p: nat, lost: bool)
    requires i < |es|
  {
    && p in OneSided(es[i], lost) && (p in After(s, es[..i]).table <==> lost)
    && forall j :: i < j < |es| ==> p !in Settled(After(s, es[..j]), es[j]) && p !in OneSided(es[j], !lost)
  }

  ghost predicate Caused(s: Space, es: seq<Event>, p: nat, lost: bool) {
    exists i :: 0 <= i < |es| && CausedAt(s, es, i, p, lost)
  }

  lemma ApplyOnPage(s: Space, e: Event, p: nat)
    ensures p in Settled(s, e) ==> (p in Apply(s, e).kernel <==> p in Apply(s, e).table)
    ensures p in Settled(s, e) ==> p !in OneSided(e, true) && p !in OneSided(e, false)
    ensures p !in Settled(s, e) ==> (p in Apply(s, e).table <==> p in s.table)
    ensures p !in Settled(s, e) ==>
              (p in Apply(s, e).kernel <==> (p in s.kernel && p !in OneSided(e, true)) || p in OneSided(e, false))
    ensures !(p in OneSided(e, true) && p in OneSided(e, false))
  {
    hide PagesOf, RoundUp;
  }

  lemma CausedAtStep(s: Space, es: seq<Event>, i: nat, p: nat, lost: bool)
    requires i < |es| - 1
    ensures var n := |es| - 1;
            CausedAt(s, es, i, p, lost) <==>
            && CausedAt(s, es[..n], i, p, lost)
            && p !in Settled(After(s, es[..n]), es[n]) && p !in OneSided(es[n], !lost)
  {
    hide Apply, Settled, OneSided;
    var n := |es| - 1;
    assert forall j :: 0 <= j <= n ==> es[..n][..j] == es[..j];
    if CausedAt(s, es[..n], i, p, lost) && p !in Settled(After(s, es[..n]), es[n]) && p !in OneSided(es[n], !lost) {
      forall j | i < j < |es| ensures p !in Settled(After(s, es[..j]), es[j]) && p !in OneSided(es[j], !lost) {
        if j < n { assert es[..n][j] == es[j]; }
      }
    }
    if CausedAt(s, es, i, p, lost) {
      forall j | i < j < n
        ensures p !in Settled(After(s, es[..n][..j]), es[..n][j]) && p !in OneSided(es[..n][j], !lost)
      {
        assert es[..n][j] == es[j];
      }
    }
  }

  lemma CausedLast(s: Space, es: seq<Event>, p: nat, lost: bool)
    requires es != []
    ensures var n := |es| - 1;
            CausedAt(s, es, n, p, lost) <==> p in OneSided(es[n], lost) && (p in After(s, es[..n]).table <==> lost)
  {
  }

  /** For every sequence of events from agreement, every page and either way round: process mappings and pgroot differ
      at the page exactly when some event caused it and nothing has mended it since. */
  lemma {:induction false} DiffersIffCaused(s: Space, es: seq<Event>, p: nat, lost: bool)
    requires s.kernel == s.table
    ensures Differs(After(s, es), p, lost) <==> Caused(s, es, p, lost)
    decreases |es|
  {
    hide CausedAt, Apply, Settled, OneSided;
    if es != [] {
      var n := |es| - 1;
      var m := After(s, es[..n]);
      DiffersIffCaused(s, es[..n], p, lost);
      ApplyOnPage(m, es[n], p);
      forall i | 0 <= i < n
        ensures CausedAt(s, es, i, p, lost) <==>
                && CausedAt(s, es[..n], i, p, lost)
                && p !in Settled(m, es[n]) && p !in OneSided(es[n], !lost)
      {
        CausedAtStep(s, es, i, p, lost);
      }
      CausedLast(s, es, p, lost);
      if Differs(After(s, es), p, lost) && !CausedAt(s, es, n, p, lost) {
        var i :| 0 <= i < n && CausedAt(s, es[..n], i, p, lost);
        assert CausedAt(s, es, i, p, lost);
      }
    }
  }

  /** The pages at which one event from agreement would break it. */
  ghost function Broken(s: Space, e: Event): (r: set<nat>) {
    OneSided(e, true) * s.table + (OneSided(e, false) - s.table)
  }

  /** One event from agreement keeps it exactly unless it undoes a mapping over pages that were present or strays over
      pages that were not. */
  lemma StepAgreement(s: Space, e: Event)
    requires s.kernel == s.table
    ensures Apply(s, e).kernel == Apply(s, e).table <==> Broken(s, e) == {}
  {
    hide OneSided, Settled, Apply;
    var s' := Apply(s, e);
    forall p: nat ensures (p in s'.kernel <==> p in s'.table) <==> p !in Broken(s, e) {
      ApplyOnPage(s, e, p);
    }
  }

  // ---------- Addresses the manager chooses ----------

  /** Below the last mapping and above the heap only explicit addresses ever mapped anything. */
  lemma GapIsFree(s: Space, addr: nat, len: nat, p: nat)
    requires Valid(s) && addr % PGSIZE == 0 && s.base + s.brk <= addr && addr + len <= s.Pos()
    requires p in PagesOf(addr, len)
    ensures p in s.kernel ==> p in s.placed
  {
    PageInRange(addr, len, p);
  }
}
