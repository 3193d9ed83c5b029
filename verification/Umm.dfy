/** The sandbox's memory calls: brk, mmap, munmap, shmat, mremap and the stack allocation, in 64-bit
    arithmetic, each proved to cause only events of the address-space model. */
module Umm {
  import opened Common
  import opened AddressSpace
  import opened UmmCalls

  datatype Errno = EINVAL | ENOMEM | EACCES | KernelError

  datatype Result = Ok(value: nat) | Err(error: Errno)

  class Manager {
    const base: nat
    const dune: bool
    var brkLen: nat
    var mmapLen: nat
    var kernel: set<nat>
    var table: set<nat>
    ghost var handed: seq<Block>
    ghost var placed: set<nat>

    ghost function View(): (s: Space)
      reads this
    {
      Space(base, dune, brkLen, mmapLen, kernel, table, handed, placed)
    }

    constructor (base: nat, dune: bool, mapped: set<nat>)
      requires base % PGSIZE == 0 && 0x4_0000_0000 <= base && base + APP_MMAP_LEN <= TASK_SIZE
      requires forall p :: p in mapped ==> !(base <= p * PGSIZE < base + APP_MMAP_LEN)
      ensures Init(View()) && this.base == base && this.dune == dune
    {
      this.base, this.dune := base, dune;
      brkLen, mmapLen, kernel, table := 0, 0, mapped, mapped;
      handed, placed := [], {};
    }

    predicate SpaceLeft(len: nat)
      reads this
      ensures SpaceLeft(len) == View().SpaceLeft(len)
    {
      (brkLen + mmapLen + len) % WORD < APP_MMAP_LEN
    }

    function MapPos(): (r: int)
      reads this
    {
      base + APP_MMAP_LEN - mmapLen
    }

    /** Below the last mapping, in 64-bit arithmetic. */
    function Below(len: nat): (r: nat)
      reads this
      ensures r == Target(View(), true, 0, len)
    {
      (MapPos() + WORD - RoundUp(len)) % WORD
    }

    /** umm_mmap_anom and umm_mmap_file: map with MAP_FIXED, then enter into pgroot, undoing the mapping if
        that fails.  The range stays mapped in both, in neither, or, when undone, only where pgroot had it. */
    method MapFixed(addr: nat, len: nat, o: Oracle) returns (ok: bool)
      modifies this`kernel, this`table
      ensures ok <==> o.kernel && o.pgroot && Accepts(addr, len)
      ensures ok ==> kernel == old(kernel) + PagesOf(addr, len) && table == old(table) + PagesOf(addr, len)
      ensures ok ==> Entered(old(kernel), kernel, addr, len) && Entered(old(table), table, addr, len)
      ensures !ok ==> table == old(table)
      ensures !ok && o.kernel && Accepts(addr, len) ==> Removed(old(kernel), kernel, addr, len)
      ensures !ok && o.kernel && Accepts(addr, len) ==> kernel == old(kernel) - PagesOf(addr, len)
      ensures !(o.kernel && Accepts(addr, len)) ==> kernel == old(kernel)
    {
      if !o.kernel || !Accepts(addr, len) {
        return false;
      }
      PagesEntered(kernel, addr, len);
      PagesEntered(table, addr, len);
      hide PagesOf, Entered, Removed;
      kernel := kernel + PagesOf(addr, len);
      if !o.pgroot {
        kernel := kernel - PagesOf(addr, len);
        assert kernel == old(kernel) - PagesOf(addr, len);
        return false;
      }
      table := table + PagesOf(addr, len);
      return true;
    }

    /** umm_brk. */
    method Brk(brk: nat, o: Oracle) returns (r: Result, ghost es: seq<Event>)
      requires Layout(View()) && brk < WORD
      modifies this`brkLen, this`kernel, this`table
      ensures es == Events(old(View()), UmmCalls.Brk(brk), o) && Run(old(View()), es, View())
      ensures old(kernel == table) ==> (kernel == table <==> !Clobbers(old(View()), UmmCalls.Brk(brk), o))
      ensures !r.Ok? ==> brkLen == old(brkLen) && table == old(table)
      ensures r.Ok? && brk != 0 ==> base <= brk && brkLen == RoundUp(brk - base) && r.value == brk <= base + brkLen
      ensures brk == 0 ==> r == Ok(base)
      ensures 0 < brk < base ==> r == Err(EINVAL)
      ensures r == Err(ENOMEM) <==> base <= brk && HeapLength(old(View()), brk).None?
      ensures r.Ok? && brk != 0 ==> brk <= base + brkLen < brk + 4096 && brkLen % 4096 == 0
      ensures r.Ok? && brkLen > old(brkLen) ==>
                && Entered(old(kernel), kernel, base + old(brkLen), brkLen - old(brkLen))
                && Entered(old(table), table, base + old(brkLen), brkLen - old(brkLen))
      ensures r.Ok? && brkLen < old(brkLen) ==>
                && Removed(old(kernel), kernel, base + brkLen, old(brkLen) - brkLen)
                && Removed(old(table), table, base + brkLen, old(brkLen) - brkLen)
      ensures r.Ok? && brkLen == old(brkLen) ==> kernel == old(kernel) && table == old(table)
      ensures r.Ok? <==> brk == 0 || (base <= brk && HeapGranted(old(View()), brk, o))
    {
      ghost var s, c := View(), UmmCalls.Brk(brk);
      es := Events(s, c, o);
      PlainOutcome(s, c, o);
      if brk == 0 {
        return Ok(base), es;
      }
      if brk < base {
        return Err(EINVAL), es;
      }
      var len := RoundUp(brk - base);
      BrkLength(s, brk);
      if !SpaceLeft(len) {
        return Err(ENOMEM), es;
      }
      HeapRounded(s, brk);
      hide RoundUp, PagesOf, Clobbers, Run, Entered, Removed;
      var ok := ResizeHeap(len, brk, o);
      return if ok then Ok(brk) else Err(KernelError), es;
    }

    /** The part of umm_brk that moves the end of the heap. */
    method ResizeHeap(len: nat, ghost brk: nat, o: Oracle) returns (ok: bool)
      requires Layout(View()) && base <= brk < WORD && HeapLength(View(), brk) == Some(len)
      modifies this`brkLen, this`kernel, this`table
      ensures ok <==> HeapGranted(old(View()), brk, o)
      ensures brkLen == (if ok then len else old(brkLen)) && (!ok ==> table == old(table))
      ensures View() == After(old(View()), Events(old(View()), UmmCalls.Brk(brk), o))
      ensures ok && len > old(brkLen) ==>
                && Entered(old(kernel), kernel, base + old(brkLen), len - old(brkLen))
                && Entered(old(table), table, base + old(brkLen), len - old(brkLen))
      ensures ok && len < old(brkLen) ==>
                && Removed(old(kernel), kernel, base + len, old(brkLen) - len)
                && Removed(old(table), table, base + len, old(brkLen) - len)
      ensures ok && len == old(brkLen) ==> kernel == old(kernel) && table == old(table)
    {
      ghost var s := View();
      ghost var es := Events(s, UmmCalls.Brk(brk), o);
      HeapEvents(s, brk, len, o);
      OneEvent(s, es);
      assert (base + len) % PGSIZE == 0 by { BrkLength(s, brk); PageMultiples(base, len); }
      hide RoundUp, PagesOf, Events, HeapLength, HeapGranted, Layout, After, Apply, Accepts, Entered, Removed;
      if len == brkLen {
        return true;
      } else if len < brkLen {
        ok := ShrinkHeap(len, o);
      } else {
        ok := GrowHeap(len, o);
      }
    }

    method ShrinkHeap(len: nat, o: Oracle) returns (ok: bool)
      requires len < brkLen && (base + len) % PGSIZE == 0
      modifies this`brkLen, this`kernel, this`table
      ensures ok <==> o.kernel
      ensures brkLen == (if ok then len else old(brkLen)) && (!ok ==> table == old(table))
      ensures View() == if ok then Apply(old(View()), Heap(len)) else old(View())
      ensures ok ==> Removed(old(kernel), kernel, base + len, old(brkLen) - len)
      ensures ok ==> Removed(old(table), table, base + len, old(brkLen) - len)
    {
      hide PagesOf, Removed, Entered;
      if !o.kernel {
        return false;
      }
      PagesEntered(kernel, base + len, brkLen - len);
      PagesEntered(table, base + len, brkLen - len);
      kernel := kernel - PagesOf(base + len, brkLen - len);
      table := table - PagesOf(base + len, brkLen - len);
      brkLen := len;
      return true;
    }

    method GrowHeap(len: nat, o: Oracle) returns (ok: bool)
      requires len > brkLen && Accepts(base + brkLen, len - brkLen)
      modifies this`brkLen, this`kernel, this`table
      ensures ok <==> o.kernel && o.pgroot
      ensures ok ==> brkLen == len && View() == Apply(old(View()), Heap(len))
      ensures !ok ==> brkLen == old(brkLen) && table == old(table)
      ensures !ok && o.kernel ==> View() == Apply(old(View()), Undone(base + old(brkLen), len - old(brkLen)))
      ensures !o.kernel ==> View() == old(View())
      ensures ok ==> Entered(old(kernel), kernel, base + old(brkLen), len - old(brkLen))
      ensures ok ==> Entered(old(table), table, base + old(brkLen), len - old(brkLen))
    {
      hide PagesOf, Accepts, Entered, Removed;
      ok := MapFixed(base + brkLen, len - brkLen, o);
      if ok {
        brkLen := len;
      }
    }

    /** umm_mmap; `anon` is MAP_ANONYMOUS in flags. */
    method Mmap(addr: nat, len: nat, anon: bool, fd: int, o: Oracle) returns (r: Result, ghost es: seq<Event>)
      requires Layout(View()) && addr < WORD && len < WORD
      modifies this`mmapLen, this`kernel, this`table, this`handed, this`placed
      ensures es == Events(old(View()), UmmCalls.Mmap(addr, len, anon, fd), o) && Run(old(View()), es, View())
      ensures old(kernel == table) ==>
                (kernel == table <==> !Clobbers(old(View()), UmmCalls.Mmap(addr, len, anon, fd), o))
      ensures !r.Ok? ==> mmapLen == old(mmapLen) && table == old(table)
      ensures addr == 0 && r.Ok? ==> |handed| > 0 && r.value == handed[|handed| - 1].addr
      ensures addr != 0 && r.Ok? ==> mmapLen == old(mmapLen) && r.value == addr
      ensures addr != 0 && !MemRefIsSafe(base, dune, addr, len) ==> r == Err(EINVAL)
      ensures r.Ok? ==> Entered(old(kernel), kernel, r.value, len) && Entered(old(table), table, r.value, len)
      ensures addr == 0 && r.Ok? ==>
                r.value % 4096 == 0 && r.value + len <= old(MapPos()) < r.value + len + 4096 && MapPos() == r.value
      ensures addr == 0 && old(SpaceLeft(len)) && !anon && fd <= 0 ==> r == Err(EINVAL)
      ensures addr != 0 && !anon && fd <= 0 ==> r == Err(EINVAL)
      ensures addr != 0 && !r.Ok? ==> kernel == old(kernel) || Removed(old(kernel), kernel, addr, len)
      ensures r.Ok? <==> (anon || fd > 0) && MapGranted(old(View()), addr == 0, addr, len, o) && o.pgroot
      ensures r == Err(ENOMEM) <==> addr == 0 && !old(SpaceLeft(len))
    {
      ghost var s, c := View(), UmmCalls.Mmap(addr, len, anon, fd);
      es := Events(s, c, o);
      PlainOutcome(s, c, o);
      OneEvent(s, es);
      MapEvents(s, c, o);
      TargetAnyway(s, len);
      hide Clobbers, Run, After, Accepts, MemRefIsSafe, Events, Layout, SpaceLeft, Space.SpaceLeft, Below, Target;
      var target := addr;
      if addr == 0 {
        if !SpaceLeft(len) {
          return Err(ENOMEM), es;
        }
        target := Below(len);
      } else if !MemRefIsSafe(base, dune, addr, len) {
        return Err(EINVAL), es;
      }
      if !anon && fd <= 0 {
        return Err(EINVAL), es;
      }
      assert target == Target(s, addr == 0, addr, len) && Allowed(s, addr == 0, addr, len);
      hide RoundUp, PagesOf, Allowed, Apply, Entered, Removed;
      var ok := MapAt(addr == 0, target, len, o);
      return if ok then Ok(target) else Err(KernelError), es;
    }

    /** The mapping itself, once its address is known. */
    method MapAt(chosen: bool, target: nat, len: nat, o: Oracle) returns (ok: bool)
      requires Layout(View()) && len < WORD
      requires Allowed(View(), chosen, target, len) && target == Target(View(), chosen, target, len)
      modifies this`mmapLen, this`kernel, this`table, this`handed, this`placed
      ensures ok <==> o.kernel && Accepts(target, len) && o.pgroot
      ensures ok ==> View() == Apply(old(View()), if chosen then Hand(len, 0) else Place(target, len))
      ensures ok && chosen ==> |handed| > 0 && handed[|handed| - 1].addr == target
      ensures ok && !chosen ==> mmapLen == old(mmapLen)
      ensures !ok ==> mmapLen == old(mmapLen) && table == old(table)
      ensures !ok && o.kernel && Accepts(target, len) ==> View() == Apply(old(View()), Undone(target, len))
      ensures !(o.kernel && Accepts(target, len)) ==> View() == old(View())
      ensures ok ==> Entered(old(kernel), kernel, target, len) && Entered(old(table), table, target, len)
      ensures ok && chosen ==>
                target % 4096 == 0 && target + len <= old(MapPos()) < target + len + 4096 && MapPos() == target
      ensures !ok ==> kernel == old(kernel) || Removed(old(kernel), kernel, target, len)
    {
      hide Target, Allowed, Accepts, PagesOf, RoundUp, Entered, Removed;
      ghost var s := View();
      ok := MapFixed(target, len, o);
      if ok {
        Granted(s, chosen, target, len);
      }
    }

    /** The bookkeeping after a mapping at `target` succeeded: mmap_len moves only for addresses the allocator chose. */
    method Granted(ghost s: Space, chosen: bool, target: nat, len: nat)
      requires Layout(s) && len < WORD && Accepts(target, len)
      requires View() == s.(kernel := s.kernel + PagesOf(target, len), table := s.table + PagesOf(target, len))
      requires Allowed(s, chosen, target, len) && target == Target(s, chosen, target, len)
      modifies this`mmapLen, this`handed, this`placed
      ensures View() == Apply(s, if chosen then Hand(len, 0) else Place(target, len))
      ensures if chosen then |handed| > 0 && handed[|handed| - 1].addr == target else mmapLen == old(mmapLen)
      ensures chosen ==> target % 4096 == 0 && target + len <= s.Pos() < target + len + 4096 && MapPos() == target
    {
      hide PagesOf;
      if chosen {
        ChosenTarget(s, len);
        ChosenRounded(s, len);
        mmapLen := mmapLen + RoundUp(len);
        handed := handed + [Block(target, RoundUp(len), target)];
      } else {
        placed := placed + PagesOf(target, len);
      }
    }

    /** umm_munmap, with its second attempt on the length rounded up to big pages. */
    method Munmap(addr: nat, len: nat, o: Oracle) returns (r: Result, ghost es: seq<Event>)
      requires Layout(View()) && addr < WORD && len < WORD
      modifies this`kernel, this`table
      ensures es == Events(old(View()), UmmCalls.Munmap(addr, len), o) && Run(old(View()), es, View())
      ensures old(kernel == table) ==> kernel == table
      ensures !MemRefIsSafe(base, dune, addr, len) ==> r == Err(EACCES)
      ensures r.Ok? ==> r.value == 0
      ensures r.Ok? && o.kernel && Accepts(addr, len) ==>
                Removed(old(kernel), kernel, addr, len) && Removed(old(table), table, addr, len)
      ensures r.Ok? && !(o.kernel && Accepts(addr, len)) ==>
                Removed(old(kernel), kernel, addr, BigRoundUp(len)) && Removed(old(table), table, addr, BigRoundUp(len))
      ensures MemRefIsSafe(base, dune, addr, len) && !r.Ok? ==> r == Err(KernelError)
      ensures !r.Ok? ==> es == [] && kernel == old(kernel) && table == old(table)
      ensures r.Ok? <==> (
                && MemRefIsSafe(base, dune, addr, len)
                && ((o.kernel && Accepts(addr, len)) || (o.fallback && Accepts(addr, BigRoundUp(len)))))
    {
      ghost var s, c := View(), UmmCalls.Munmap(addr, len);
      es := Events(s, c, o);
      PlainOutcome(s, c, o);
      OneEvent(s, es);
      hide Run, PagesOf, MemRefIsSafe, BigRoundUp, Accepts, After;
      if !MemRefIsSafe(base, dune, addr, len) {
        return Err(EACCES), es;
      }
      var n := len;
      if !o.kernel || !Accepts(addr, len) {
        n := BigRoundUp(len);
        if !o.fallback || !Accepts(addr, n) {
          return Err(KernelError), es;
        }
      }
      assert addr % PGSIZE == 0 by { AcceptedIsAligned(addr, n); }
      PagesEntered(kernel, addr, n);
      PagesEntered(table, addr, n);
      hide Entered, Removed;
      kernel := kernel - PagesOf(addr, n);
      table := table - PagesOf(addr, n);
      return Ok(0), es;
    }

    /** umm_shmat; `len` is the segment's size, as shmctl reports it, and `rnd` is SHM_RND in the flags. */
    method Shmat(addr: nat, len: nat, rnd: bool, o: Oracle) returns (r: Result, ghost es: seq<Event>)
      requires Layout(View()) && addr < WORD && len < WORD
      modifies this`mmapLen, this`kernel, this`table, this`handed, this`placed
      ensures es == Events(old(View()), UmmCalls.Shmat(addr, len, rnd), o) && Run(old(View()), es, View())
      ensures old(kernel == table) ==> (kernel == table <==> !Breaks(old(View()), UmmCalls.Shmat(addr, len, rnd), o))
      ensures !r.Ok? ==> mmapLen == old(mmapLen) && table == old(table)
      ensures addr == 0 && r.Ok? ==> |handed| > 0 && r.value == handed[|handed| - 1].addr
      ensures addr != 0 && r.Ok? ==> mmapLen == old(mmapLen) && r.value == addr
      ensures r.Ok? ==> Entered(old(kernel), kernel, r.value, len) && Entered(old(table), table, r.value, len)
      ensures addr == 0 && r.Ok? ==>
                r.value % 4096 == 0 && r.value + len <= old(MapPos()) < r.value + len + 4096 && MapPos() == r.value
      ensures addr != 0 && !MemRefIsSafe(base, dune, addr, len) ==> r == Err(EINVAL)
      ensures rnd && addr % 4096 != 0 && MemRefIsSafe(base, dune, addr, len) ==>
                o.kernel && Accepts(addr - addr % 4096, len) ==> Entered(old(kernel), kernel, addr - addr % 4096, len)
      ensures r.Ok? <==> MapGranted(old(View()), addr == 0, addr, len, o) && o.pgroot
      ensures r == Err(ENOMEM) <==> addr == 0 && !old(SpaceLeft(len))
    {
      ghost var s, c := View(), UmmCalls.Shmat(addr, len, rnd);
      es := Events(s, c, o);
      Outcome(s, c, o);
      OneEvent(s, es);
      MapEvents(s, c, o);
      assert Rounded(c) <==> rnd && addr % PGSIZE != 0;
      TargetAnyway(s, len);
      hide Breaks, Rounded, PgAddr, Run, After, Accepts, MemRefIsSafe, Events, Layout, SpaceLeft, Space.SpaceLeft,
        Below, Target;
      var target := addr;
      if addr == 0 {
        if !SpaceLeft(len) {
          return Err(ENOMEM), es;
        }
        target := Below(len);
      } else if !MemRefIsSafe(base, dune, addr, len) {
        return Err(EINVAL), es;
      }
      if rnd && addr % PGSIZE != 0 {
        // The kernel rounds the address down, so the attached address is not the one asked for.
        hide RoundUp, PagesOf, Target, Apply, Entered, Removed;
        assert PgAddr(addr) == addr - addr % 4096 by { PgAddrIs(addr); }
        Attach(addr, len, o);
        return Err(KernelError), es;
      }
      assert target == Target(s, addr == 0, addr, len) && Allowed(s, addr == 0, addr, len);
      hide RoundUp, PagesOf, Allowed, Apply, Entered, Removed;
      var ok := MapAt(addr == 0, target, len, o);
      return if ok then Ok(target) else Err(KernelError), es;
    }

    /** The kernel attaches the segment at the page below an unaligned address, and nothing removes it. */
    method Attach(addr: nat, len: nat, o: Oracle)
      modifies this`kernel, this`placed
      ensures o.kernel && Accepts(PgAddr(addr), len) ==> View() == Apply(old(View()), Stray(addr, len))
      ensures o.kernel && Accepts(PgAddr(addr), len) ==> Entered(old(kernel), kernel, addr - addr % 4096, len)
      ensures !(o.kernel && Accepts(PgAddr(addr), len)) ==> View() == old(View())
    {
      hide Accepts, PagesOf, Entered, Removed;
      var low := addr - addr % PGSIZE;
      PagesEntered(kernel, low, len);
      if o.kernel && Accepts(low, len) {
        kernel := kernel + PagesOf(low, len);
        placed := placed + PagesOf(low, len);
      }
    }

    /** umm_mremap; `fixed` and `mayMove` are the MREMAP flags.  When pgroot refuses the new range the
        process exits, so a call that returns has o.pgroot. */
    method Mremap(oldAddr: nat, oldLen: nat, newLen: nat, fixed: bool, mayMove: bool, newAddr: nat, o: Oracle)
      returns (r: Result, ghost es: seq<Event>)
      requires Layout(View()) && oldAddr < WORD && oldLen < WORD && newLen < WORD && newAddr < WORD && o.pgroot
      modifies this`mmapLen, this`kernel, this`table, this`handed, this`placed
      ensures es == Events(old(View()), UmmCalls.Mremap(oldAddr, oldLen, newLen, fixed, mayMove, newAddr), o)
      ensures Run(old(View()), es, View())
      ensures old(kernel == table) ==> kernel == table
      ensures r.Ok? && !fixed ==> |handed| > 0 && r.value == handed[|handed| - 1].addr
      ensures r.Ok? && fixed ==> mmapLen == old(mmapLen) && r.value == newAddr
      ensures !r.Ok? ==> es == [] && View() == old(View())
      ensures !MemRefIsSafe(base, dune, oldAddr, oldLen) ==> r == Err(EACCES)
      ensures fixed && !MemRefIsSafe(base, dune, newAddr, newLen) ==> r == Err(EACCES)
      ensures MemRefIsSafe(base, dune, oldAddr, oldLen) && !fixed && !old(SpaceLeft(newLen)) ==> r == Err(ENOMEM)
      ensures MemRefIsSafe(base, dune, oldAddr, oldLen) && Allowed(old(View()), !fixed, newAddr, newLen) && !mayMove ==>
                r == Err(EINVAL)
      ensures r.Ok? ==> Replaced(old(kernel), kernel, oldAddr, oldLen, r.value, newLen)
      ensures r.Ok? ==> Replaced(old(table), table, oldAddr, oldLen, r.value, newLen)
      ensures !fixed && r.Ok? ==>
                && r.value % 4096 == 0 && MapPos() == r.value
                && r.value + newLen <= old(MapPos()) < r.value + newLen + 4096
      ensures r.Ok? <==> (
                && MemRefIsSafe(base, dune, oldAddr, oldLen) && mayMove && oldAddr % PGSIZE == 0
                && MapGranted(old(View()), !fixed, newAddr, newLen, o))
    {
      ghost var s, c := View(), UmmCalls.Mremap(oldAddr, oldLen, newLen, fixed, mayMove, newAddr);
      es := Events(s, c, o);
      PlainOutcome(s, c, o);
      hide Run, PagesOf, MemRefIsSafe, Apply;
      if !MemRefIsSafe(base, dune, oldAddr, oldLen) {
        return Err(EACCES), es;
      }
      var target := newAddr;
      if fixed {
        if !MemRefIsSafe(base, dune, newAddr, newLen) {
          return Err(EACCES), es;
        }
      } else {
        if !SpaceLeft(newLen) {
          return Err(ENOMEM), es;
        }
        target := Below(newLen);
      }
      hide RoundUp;
      if !mayMove {
        return Err(EINVAL), es;
      }
      if !o.kernel || !Accepts(target, newLen) || oldAddr % PGSIZE != 0 {
        return Err(KernelError), es;
      }
      assert target == Target(s, !fixed, newAddr, newLen) && Allowed(s, !fixed, newAddr, newLen);
      hide Target, Allowed, Accepts, Space.SpaceLeft, SpaceLeft, Replaced;
      Move(oldAddr, oldLen, !fixed, target, newLen);
      TwoEvents(s, es);
      return Ok(target), es;
    }

    /** The kernel drops the old range and maps the new one; pgroot follows. */
    method Move(oldAddr: nat, oldLen: nat, chosen: bool, target: nat, len: nat)
      requires Layout(View()) && len < WORD && Accepts(target, len) && oldAddr % PGSIZE == 0
      requires Allowed(View(), chosen, target, len) && target == Target(View(), chosen, target, len)
      modifies this`mmapLen, this`kernel, this`table, this`handed, this`placed
      ensures Replaced(old(kernel), kernel, oldAddr, oldLen, target, len)
      ensures Replaced(old(table), table, oldAddr, oldLen, target, len)
      ensures chosen ==>
                target % 4096 == 0 && target + len <= old(MapPos()) < target + len + 4096 && MapPos() == target
      ensures var m := Apply(old(View()), Unmap(oldAddr, oldLen));
              View() == Apply(m, if chosen then Hand(len, 0) else Place(target, len))
      ensures if chosen then |handed| > 0 && handed[|handed| - 1].addr == target else mmapLen == old(mmapLen)
    {
      assert target % PGSIZE == 0 by { AcceptedIsAligned(target, len); }
      hide PagesOf, RoundUp, Accepts, Replaced;
      PagesReplaced(kernel, oldAddr, oldLen, target, len);
      PagesReplaced(table, oldAddr, oldLen, target, len);
      kernel, table := kernel - PagesOf(oldAddr, oldLen), table - PagesOf(oldAddr, oldLen);
      ghost var m := View();
      kernel, table := kernel + PagesOf(target, len), table + PagesOf(target, len);
      Granted(m, chosen, target, len);
    }

    /** umm_alloc_stack: eight megabytes below the last mapping, the lowest page left unmapped. */
    method AllocStack(o: Oracle) returns (r: Result, ghost es: seq<Event>)
      requires Layout(View())
      modifies this`mmapLen, this`kernel, this`table, this`handed
      ensures es == Events(old(View()), UmmCalls.AllocStack, o) && Run(old(View()), es, View())
      ensures old(kernel == table) ==> (kernel == table <==> !Clobbers(old(View()), UmmCalls.AllocStack, o))
      ensures r.Ok? ==> r.value == old(MapPos())
      ensures r.Ok? ==> var addr := r.value - APP_STACK_SIZE;
                        handed == old(handed) + [Block(addr, APP_STACK_SIZE, addr + PGSIZE)]
      ensures !r.Ok? ==> mmapLen == old(mmapLen) && table == old(table)
      ensures r == Err(ENOMEM) <==> !old(SpaceLeft(APP_STACK_SIZE))
      ensures r.Ok? <==> old(SpaceLeft(APP_STACK_SIZE)) && o.kernel && o.pgroot
      ensures r.Ok? ==> MapPos() == r.value - 0x80_0000 >= 0
      ensures r.Ok? ==> Entered(old(kernel), kernel, MapPos() + 4096, 0x80_0000 - 4096)
      ensures r.Ok? ==> Entered(old(table), table, MapPos() + 4096, 0x80_0000 - 4096)
    {
      ghost var s, c := View(), UmmCalls.AllocStack;
      es := Events(s, c, o);
      PlainOutcome(s, c, o);
      OneEvent(s, es);
      StackEvents(s, o);
      hide Clobbers, Run, After, Accepts, Events, Layout, RoundUp, PagesOf;
      var pos := MapPos();
      if !SpaceLeft(APP_STACK_SIZE) {
        return Err(ENOMEM), es;
      }
      hide SpaceLeft, Space.SpaceLeft, Apply, Entered, Removed;
      var ok := MapStack(pos, o);
      return if ok then Ok(pos - pos % PGSIZE) else Err(KernelError), es;
    }

    /** The mapping of the stack and its bookkeeping. */
    method MapStack(pos: nat, o: Oracle) returns (ok: bool)
      requires pos == MapPos() && pos % PGSIZE == 0 && RoundUp(APP_STACK_SIZE) == APP_STACK_SIZE <= pos
      requires Accepts(pos - APP_STACK_SIZE + PGSIZE, APP_STACK_SIZE - PGSIZE)
      modifies this`mmapLen, this`kernel, this`table, this`handed
      ensures ok <==> o.kernel && o.pgroot
      ensures ok ==> View() == Apply(old(View()), Hand(APP_STACK_SIZE, PGSIZE))
      ensures ok ==> (handed
                      == old(handed) + [Block(pos - APP_STACK_SIZE, APP_STACK_SIZE, pos - APP_STACK_SIZE + PGSIZE)])
      ensures ok ==> MapPos() == pos - 0x80_0000
      ensures ok ==> Entered(old(kernel), kernel, pos - 0x80_0000 + 4096, 0x80_0000 - 4096)
      ensures ok ==> Entered(old(table), table, pos - 0x80_0000 + 4096, 0x80_0000 - 4096)
      ensures !ok ==> mmapLen == old(mmapLen) && table == old(table)
      ensures !ok ==> (View() == if !o.kernel then old(View())
                       else Apply(old(View()), Undone(pos - APP_STACK_SIZE + PGSIZE, APP_STACK_SIZE - PGSIZE)))
    {
      hide Accepts, RoundUp, PagesOf, Entered, Removed;
      var low := pos - pos % PGSIZE - APP_STACK_SIZE + PGSIZE;
      ok := MapFixed(low, APP_STACK_SIZE - PGSIZE, o);
      if ok {
        mmapLen := mmapLen + APP_STACK_SIZE + pos % PGSIZE;
        handed := handed + [Block(low - PGSIZE, APP_STACK_SIZE, low)];
      }
    }
  }

  /** The mapping at an explicit or chosen address is allowed by the manager and by the kernel. */
  predicate MapGranted(s: Space, chosen: bool, addr: nat, len: nat, o: Oracle) {
    Allowed(s, chosen, addr, len) && o.kernel && Accepts(Target(s, chosen, addr, len), len)
  }

  /** The heap may end at brk. */
  predicate HeapGranted(s: Space, brk: nat, o: Oracle) {
    && HeapLength(s, brk).Some?
    && (HeapLength(s, brk).value == s.brk || (o.kernel && (HeapLength(s, brk).value > s.brk ==> o.pgroot)))
  }

  /** The events of umm_mmap and umm_shmat, by address. */
  lemma MapEvents(s: Space, c: Call, o: Oracle)
    requires Layout(s) && (c.Mmap? || c.Shmat?)
    ensures var target := Target(s, c.addr == 0, c.addr, c.len);
            Events(s, c, o) ==
            if (c.Mmap? && !c.anon && c.fd <= 0) || !Allowed(s, c.addr == 0, c.addr, c.len) then []
            else if Rounded(c) then (if o.kernel && Accepts(PgAddr(c.addr), c.len) then [Stray(c.addr, c.len)] else [])
            else if !o.kernel || !Accepts(target, c.len) then []
            else if !o.pgroot then [Undone(target, c.len)]
            else [if c.addr == 0 then Hand(c.len, 0) else Place(c.addr, c.len)]
  {
    hide Target, Allowed, Accepts;
  }

  /** The events of umm_alloc_stack; its range is always one the kernel accepts. */
  lemma StackEvents(s: Space, o: Oracle)
    requires Layout(s)
    ensures !s.SpaceLeft(APP_STACK_SIZE) ==> Events(s, UmmCalls.AllocStack, o) == []
    ensures s.SpaceLeft(APP_STACK_SIZE) ==>
              var low := s.Pos() - APP_STACK_SIZE + PGSIZE;
              && RoundUp(APP_STACK_SIZE) == APP_STACK_SIZE <= s.Pos() && s.Pos() % PGSIZE == 0
              && Accepts(low, APP_STACK_SIZE - PGSIZE)
              && Events(s, UmmCalls.AllocStack, o) ==
                 if !o.kernel then [] else if o.pgroot then [Hand(APP_STACK_SIZE, PGSIZE)]
                 else [Undone(low, APP_STACK_SIZE - PGSIZE)]
  {
    PosAligned(s);
    if s.SpaceLeft(APP_STACK_SIZE) {
      NextBlock(s, APP_STACK_SIZE, PGSIZE);
      PageMultiples(s.Pos(), APP_STACK_SIZE - PGSIZE);
    }
  }

  /** The events of umm_brk, by the new length. */
  lemma HeapEvents(s: Space, brk: nat, len: nat, o: Oracle)
    requires Layout(s) && s.base <= brk < WORD && HeapLength(s, brk) == Some(len)
    ensures HeapGranted(s, brk, o) <==> len == s.brk || (o.kernel && (len > s.brk ==> o.pgroot))
    ensures len > s.brk ==> Accepts(s.base + s.brk, len - s.brk)
    ensures Events(s, UmmCalls.Brk(brk), o) ==
            if len == s.brk || !o.kernel then []
            else if len < s.brk || o.pgroot then [Heap(len)]
            else [Undone(s.base + s.brk, len - s.brk)]
  {
    BrkLength(s, brk);
    PageMultiples(s.base, s.brk);
  }

  /** The events of a call are a run, and it keeps agreement exactly unless it clobbers. */
  lemma Outcome(s: Space, c: Call, o: Oracle)
    requires Layout(s) && Returns(c, o)
    ensures Run(s, Events(s, c, o), After(s, Events(s, c, o)))
    ensures s.kernel == s.table ==>
              var s' := After(s, Events(s, c, o)); s'.kernel == s'.table <==> !Breaks(s, c, o)
  {
    CallRuns(s, c, o);
    if s.kernel == s.table { CallAgreement(s, c, o); }
  }

  lemma AcceptedIsAligned(addr: nat, len: nat)
    requires Accepts(addr, len)
    ensures addr % PGSIZE == 0
  {
  }

  lemma PgAddrIs(addr: nat)
    ensures PgAddr(addr) == addr - addr % 4096
  {
  }

  /** The heap ends less than a page after what was asked for. */
  lemma HeapRounded(s: Space, brk: nat)
    requires Layout(s) && s.base <= brk < WORD
    ensures brk <= s.base + RoundUp(brk - s.base) < brk + 4096 && RoundUp(brk - s.base) % 4096 == 0
  {
    BrkLength(s, brk);
    assert (brk - s.base + PGSIZE - 1) % WORD == brk - s.base + PGSIZE - 1;
  }

  /** A chosen range ends less than a page before the last mapping. */
  lemma ChosenRounded(s: Space, len: nat)
    requires Layout(s) && s.brk + s.mm + len < APP_MMAP_LEN
    ensures var t := s.Pos() - RoundUp(len); t % 4096 == 0 && t + len <= s.Pos() < t + len + 4096
  {
    PageMultiples(s.brk, s.mm);
    RoundedFits(s.brk + s.mm, len);
    PosAligned(s);
    PageMultiples(s.Pos(), RoundUp(len));
  }

  /** The address given matters only when it is the target. */
  lemma TargetAnyway(s: Space, len: nat)
    ensures forall addr :: Target(s, true, addr, len) == Target(s, true, 0, len)
    ensures forall addr :: Target(s, false, addr, len) == addr
  {
  }

  lemma PlainOutcome(s: Space, c: Call, o: Oracle)
    requires Layout(s) && Returns(c, o) && !c.Shmat?
    ensures Run(s, Events(s, c, o), After(s, Events(s, c, o)))
    ensures s.kernel == s.table ==>
              var s' := After(s, Events(s, c, o)); s'.kernel == s'.table <==> !Clobbers(s, c, o)
  {
    hide Events, Run, After, Breaks, Clobbers;
    Outcome(s, c, o);
    BreaksIsClobbers(s, c, o);
  }

  lemma OneEvent(s: Space, es: seq<Event>)
    ensures es == [] ==> After(s, es) == s
    ensures |es| == 1 ==> After(s, es) == Apply(s, es[0])
  {
    if |es| == 1 { assert es[..0] == []; }
  }

  lemma TwoEvents(s: Space, es: seq<Event>)
    requires |es| == 2
    ensures After(s, es) == Apply(Apply(s, es[0]), es[1])
  {
    assert es[..1] == [es[0]];
    OneEvent(s, es[..1]);
  }
}
