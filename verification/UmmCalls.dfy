/** The sandbox's memory calls as events of the address-space model: which events each call causes, when a call breaks
    the agreement of process mappings and pgroot, and what holds over sequences of calls. */
module UmmCalls {
  import opened Common
  import opened AddressSpace

  /** What the environment will answer: whether the kernel grants the (first) mapping call, whether it
      grants the fallback munmap, and whether pgroot can take the mapping.  A refused call has no effect;
      a range the kernel never accepts is refused whatever is asked. */
  datatype Oracle = Oracle(kernel: bool, fallback: bool, pgroot: bool)

  /** `anon` is MAP_ANONYMOUS, `fixed` and `mayMove` are the MREMAP flags, the length of Shmat is the segment's
      and `rnd` is SHM_RND. */
  datatype Call =
    | Brk(brk: nat)
    | Mmap(addr: nat, len: nat, anon: bool, fd: int)
    | Munmap(addr: nat, len: nat)
    | Shmat(addr: nat, len: nat, rnd: bool)
    | Mremap(oldAddr: nat, oldLen: nat, newLen: nat, fixed: bool, mayMove: bool, newAddr: nat)
    | AllocStack

  const BIG_PGSIZE: nat := 0x20_0000

  function BigRoundUp(len: nat): (r: nat) {
    var x := (len + BIG_PGSIZE - 1) % WORD;
    x - x % BIG_PGSIZE
  }

  /** The length is rounded up to the next two megabytes. */
  lemma BigRoundUpIs(len: nat)
    requires len + 0x20_0000 <= WORD
    ensures BigRoundUp(len) % 0x20_0000 == 0 && len <= BigRoundUp(len) < len + 0x20_0000
  {
    assert (len + BIG_PGSIZE - 1) % WORD == len + BIG_PGSIZE - 1;
  }

  /** Arguments are 64-bit words.  When pgroot refuses the new range of an mremap the process exits, so a call that
      returns has o.pgroot. */
  ghost predicate Returns(c: Call, o: Oracle) {
    match c
    case Brk(brk) => brk < WORD
    case Mmap(addr, len, _, _) => addr < WORD && len < WORD
    case Munmap(addr, len) => addr < WORD && len < WORD
    case Shmat(addr, len, _) => addr < WORD && len < WORD
    case Mremap(oldAddr, oldLen, newLen, _, _, newAddr) =>
      oldAddr < WORD && oldLen < WORD && newLen < WORD && newAddr < WORD && o.pgroot
    case AllocStack => true
  }

  // ---------- What a call asks for ----------

  datatype Range = Range(addr: nat, len: nat)

  /** Where a mapping goes: at the address asked for, or below the last one when none was given. */
  function Target(s: Space, chosen: bool, addr: nat, len: nat): (r: nat) {
    if chosen then (s.Pos() + WORD - RoundUp(len)) % WORD else addr
  }

  predicate Allowed(s: Space, chosen: bool, addr: nat, len: nat) {
    if chosen then s.SpaceLeft(len) else MemRefIsSafe(s.base, s.dune, addr, len)
  }

  /** The heap length umm_brk computes, when there is space for it. */
  function HeapLength(s: Space, brk: nat): (r: Option<nat>) {
    if brk < s.base || !s.SpaceLeft(RoundUp(brk - s.base)) then None else Some(RoundUp(brk - s.base))
  }

  /** The kernel rounds the address of the call down to a page. */
  predicate Rounded(c: Call) { c.Shmat? && c.rnd && c.addr % PGSIZE != 0 }

  /** The range a call wants mapped, in the process and then in pgroot; none if it fails before, or maps nothing. */
  ghost function Wanted(s: Space, c: Call): (r: Option<Range>)
    requires Layout(s)
  {
    match c
    case Brk(brk) =>
      var n := HeapLength(s, brk);
      if n.Some? && s.brk < n.value then Some(Range(s.base + s.brk, n.value - s.brk)) else None
    case Mmap(addr, len, anon, fd) =>
      if (anon || fd > 0) && Allowed(s, addr == 0, addr, len) then Some(Range(Target(s, addr == 0, addr, len), len))
      else None
    case Shmat(addr, len, _) =>
      if Allowed(s, addr == 0, addr, len) && !Rounded(c) then Some(Range(Target(s, addr == 0, addr, len), len))
      else None
    case AllocStack =>
      if s.SpaceLeft(APP_STACK_SIZE) then Some(Range(s.Pos() - APP_STACK_SIZE + PGSIZE, APP_STACK_SIZE - PGSIZE))
      else None
    case Munmap(_, _) => None
    case Mremap(_, _, _, _, _, _) => None
  }

  /** The event of a call whose range was mapped. */
  ghost function Mapped(s: Space, c: Call): (e: Event)
    requires Layout(s) && Wanted(s, c).Some?
  {
    match c
    case Brk(brk) => Heap(RoundUp(brk - s.base))
    case Mmap(addr, len, _, _) => if addr == 0 then Hand(len, 0) else Place(addr, len)
    case Shmat(addr, len, _) => if addr == 0 then Hand(len, 0) else Place(addr, len)
    case AllocStack => Hand(APP_STACK_SIZE, PGSIZE)
  }

  predicate Remaps(s: Space, c: Call, o: Oracle)
    requires c.Mremap?
  {
    && MemRefIsSafe(s.base, s.dune, c.oldAddr, c.oldLen) && c.mayMove && c.oldAddr % PGSIZE == 0
    && Allowed(s, !c.fixed, c.newAddr, c.newLen)
    && o.kernel && Accepts(Target(s, !c.fixed, c.newAddr, c.newLen), c.newLen)
  }

  /** shmat attached the segment below the address it was given, and umm_shmat takes that for a failure. */
  predicate Attaches(s: Space, c: Call, o: Oracle) {
    && Rounded(c) && Allowed(s, false, c.addr, c.len)
    && o.kernel && Accepts(PgAddr(c.addr), c.len)
  }

  /** The events of a call that asks for nothing to be mapped. */
  ghost function Others(s: Space, c: Call, o: Oracle): (es: seq<Event>) {
    match c
    case Brk(brk) =>
      var n := HeapLength(s, brk);
      if n.Some? && n.value < s.brk && o.kernel then [Heap(n.value)] else []
    case Munmap(addr, len) =>
      if !MemRefIsSafe(s.base, s.dune, addr, len) then []
      else if o.kernel && Accepts(addr, len) then [Unmap(addr, len)]
      else if o.fallback && Accepts(addr, BigRoundUp(len)) then [Unmap(addr, BigRoundUp(len))]
      else []
    case Mremap(oldAddr, oldLen, newLen, fixed, _, newAddr) =>
      if !Remaps(s, c, o) then []
      else [Unmap(oldAddr, oldLen), if fixed then Place(newAddr, newLen) else Hand(newLen, 0)]
    case Shmat(addr, len, _) => if Attaches(s, c, o) then [Stray(addr, len)] else []
    case _ => []
  }

  /** All events of a call. */
  ghost function Events(s: Space, c: Call, o: Oracle): (es: seq<Event>)
    requires Layout(s)
  {
    var w := Wanted(s, c);
    if w.None? then Others(s, c, o)
    else if !o.kernel || !Accepts(w.value.addr, w.value.len) then []
    else if o.pgroot then [Mapped(s, c)]
    else [Undone(w.value.addr, w.value.len)]
  }

  /** The kernel maps the range over pages that are present, then pgroot refuses it. */
  ghost predicate Clobbers(s: Space, c: Call, o: Oracle)
    requires Layout(s)
  {
    var w := Wanted(s, c);
    && w.Some? && o.kernel && !o.pgroot && Accepts(w.value.addr, w.value.len)
    && PagesOf(w.value.addr, w.value.len) * s.table != {}
  }

  /** The segment attached at the rounded address brought pages pgroot does not have. */
  ghost predicate Strays(s: Space, c: Call, o: Oracle) {
    Attaches(s, c, o) && !(PagesOf(PgAddr(c.addr), c.len) <= s.table)
  }

  /** The call makes process mappings and pgroot disagree. */
  ghost predicate Breaks(s: Space, c: Call, o: Oracle)
    requires Layout(s)
  {
    Clobbers(s, c, o) || Strays(s, c, o)
  }

  // ---------- One call ----------

  /** The heap's new length does not wrap. */
  lemma BrkLength(s: Space, brk: nat)
    requires Layout(s) && s.base <= brk < WORD
    ensures RoundUp(brk - s.base) % PGSIZE == 0 && brk - s.base <= RoundUp(brk - s.base)
    ensures (s.brk + s.mm + RoundUp(brk - s.base)) % WORD == s.brk + s.mm + RoundUp(brk - s.base)
  {
    assert (brk - s.base + PGSIZE - 1) % WORD == brk - s.base + PGSIZE - 1;
  }

  /** When the kernel accepted the range, the 64-bit sums behind an allocator-chosen address did not wrap. */
  lemma ChosenTarget(s: Space, len: nat)
    requires Layout(s) && s.SpaceLeft(len) && len < WORD && Accepts(Target(s, true, 0, len), len)
    ensures s.brk + s.mm + len < APP_MMAP_LEN && RoundUp(len) <= s.Pos()
    ensures Target(s, true, 0, len) == s.Pos() - RoundUp(len)
  {
    assert (s.brk + s.mm + len) % WORD == s.brk + s.mm + len;
    NextBlock(s, len, 0);
  }

  lemma PosAligned(s: Space)
    requires Layout(s)
    ensures s.Pos() % PGSIZE == 0 && s.base + s.brk <= s.Pos()
  {
    PageMultiples(s.base, APP_MMAP_LEN);
    PageMultiples(s.base + APP_MMAP_LEN, s.mm);
  }

  lemma MappedEnabled(s: Space, c: Call, o: Oracle)
    requires Layout(s) && Returns(c, o) && Wanted(s, c).Some?
    requires Accepts(Wanted(s, c).value.addr, Wanted(s, c).value.len)
    ensures Enabled(s, Mapped(s, c))
  {
    hide RoundUp;
    match c
    case Brk(brk) => BrkLength(s, brk);
    case Mmap(addr, len, _, _) => if addr == 0 { ChosenTarget(s, len); }
    case Shmat(addr, len, _) => if addr == 0 { ChosenTarget(s, len); }
    case AllocStack => NextBlock(s, APP_STACK_SIZE, PGSIZE);
  }

  lemma RemapEnabled(s: Space, c: Call, o: Oracle)
    requires Layout(s) && Returns(c, o) && c.Mremap? && Remaps(s, c, o)
    ensures Run(s, Others(s, c, o), After(s, Others(s, c, o)))
  {
    hide PagesOf, RoundUp;
    var u := Unmap(c.oldAddr, c.oldLen);
    var e := if c.fixed then Place(c.newAddr, c.newLen) else Hand(c.newLen, 0);
    var m := Apply(s, u);
    if !c.fixed { ChosenTarget(s, c.newLen); }
    assert Enabled(m, e);
    RunOne(s, u, m);
    RunOne(m, e, Apply(m, e));
    RunConcat(s, [u], m, [e], Apply(m, e));
    assert [u] + [e] == Others(s, c, o);
  }

  /** Every call causes a run of its events. */
  lemma CallRuns(s: Space, c: Call, o: Oracle)
    requires Layout(s) && Returns(c, o)
    ensures Run(s, Events(s, c, o), After(s, Events(s, c, o)))
  {
    hide PagesOf, RoundUp, Wanted, Apply;
    var es := Events(s, c, o);
    if Wanted(s, c).Some? {
      if es != [] && es[0] == Mapped(s, c) && o.pgroot { MappedEnabled(s, c, o); }
      if es != [] { RunOne(s, es[0], Apply(s, es[0])); }
    } else if c.Mremap? {
      if Remaps(s, c, o) { RemapEnabled(s, c, o); }
    } else {
      if c.Brk? && s.base <= c.brk { BrkLength(s, c.brk); }
      if es != [] { RunOne(s, es[0], Apply(s, es[0])); }
    }
  }

  /** Process mappings and pgroot agree after a call exactly unless it breaks the agreement. */
  lemma CallAgreement(s: Space, c: Call, o: Oracle)
    requires Layout(s) && s.kernel == s.table
    ensures var s' := After(s, Events(s, c, o)); s'.kernel == s'.table <==> !Breaks(s, c, o)
  {
    hide PagesOf, RoundUp, Apply, Wanted, Mapped, Allowed, Accepts, PgAddr;
    var es := Events(s, c, o);
    if es == [] {
      RoundedWantsNothing(s, c);
    } else if |es| == 1 {
      assert es == [es[0]] && es[..0] == [];
      StepAgreement(s, es[0]);
      assert After(s, es) == Apply(s, es[0]);
      OneEventBreaks(s, c, o);
    } else {
      RemapAgreement(s, es);
    }
  }

  /** Only shmat can stray. */
  lemma BreaksIsClobbers(s: Space, c: Call, o: Oracle)
    requires Layout(s) && !c.Shmat?
    ensures Breaks(s, c, o) <==> Clobbers(s, c, o)
  {
    hide Clobbers;
  }

  lemma RoundedWantsNothing(s: Space, c: Call)
    requires Layout(s)
    ensures Rounded(c) ==> Wanted(s, c).None?
  {
  }

  /** A call with one event breaks the agreement exactly when the event does. */
  lemma OneEventBreaks(s: Space, c: Call, o: Oracle)
    requires Layout(s) && |Events(s, c, o)| == 1
    ensures Broken(s, Events(s, c, o)[0]) == {} <==> !Breaks(s, c, o)
  {
    hide PagesOf, RoundUp, Allowed, Accepts, PgAddr;
    var e := Events(s, c, o)[0];
    var x, y := OneSided(e, true), OneSided(e, false);
    assert Broken(s, e) == {} <==> x * s.table == {} && y <= s.table by {
      assert x * s.table <= Broken(s, e) && y - s.table <= Broken(s, e);
      if y - s.table == {} {
        forall p | p in y ensures p in s.table { assert p !in y - s.table; }
      }
    }
    if Wanted(s, c).Some? {
      assert !Rounded(c);
      if o.pgroot { assert x == {} && y == {}; }
    } else if Rounded(c) {
      assert e == Stray(c.addr, c.len);
    } else {
      assert x == {} && y == {};
    }
  }

  lemma RemapAgreement(s: Space, es: seq<Event>)
    requires s.kernel == s.table && |es| == 2
    requires !es[0].Undone? && !es[1].Undone? && !es[0].Stray? && !es[1].Stray?
    ensures After(s, es).kernel == After(s, es).table
  {
    hide Apply, PagesOf;
    assert es[..1] == [es[0]] && es[..1][..0] == [];
    assert After(s, es[..1]) == Apply(s, es[0]);
    StepAgreement(s, es[0]);
    StepAgreement(Apply(s, es[0]), es[1]);
    assert Broken(s, es[0]) == {} && Broken(Apply(s, es[0]), es[1]) == {};
  }

  // ---------- Addresses the manager chose ----------

  /** The address is not the caller's. */
  predicate Chosen(c: Call) {
    match c
    case Brk(_) => true
    case Mmap(addr, _, _, _) => addr == 0
    case Shmat(addr, _, _) => addr == 0
    case AllocStack => true
    case _ => false
  }

  /** What the manager asks for lies between the heap and the last mapping. */
  lemma ChosenInGap(s: Space, c: Call, o: Oracle)
    requires Layout(s) && Returns(c, o) && Chosen(c) && Wanted(s, c).Some?
    requires Accepts(Wanted(s, c).value.addr, Wanted(s, c).value.len)
    ensures var w := Wanted(s, c).value;
            w.addr % PGSIZE == 0 && s.base + s.brk <= w.addr && w.addr + w.len <= s.Pos()
  {
    PosAligned(s);
    match c
    case Brk(brk) => BrkLength(s, brk);
    case Mmap(_, len, _, _) => ChosenTarget(s, len); NextBlock(s, len, 0);
    case Shmat(_, len, _) => ChosenTarget(s, len); NextBlock(s, len, 0);
    case AllocStack => NextBlock(s, APP_STACK_SIZE, PGSIZE);
  }

  /** A range the manager chose hits a present page only where an explicit address put it. */
  lemma ChosenHitsOnlyPlaced(s: Space, c: Call, o: Oracle, p: nat)
    requires Valid(s) && Returns(c, o) && Chosen(c) && Wanted(s, c).Some?
    requires Accepts(Wanted(s, c).value.addr, Wanted(s, c).value.len)
    requires p in PagesOf(Wanted(s, c).value.addr, Wanted(s, c).value.len)
    ensures p in s.kernel ==> p in s.placed && s.InWindow(p)
  {
    hide Valid, Wanted;
    assert Layout(s) by { ValidLayout(s); }
    var w := Wanted(s, c).value;
    ChosenInGap(s, c, o);
    GapIsFree(s, w.addr, w.len, p);
    PageInRange(w.addr, w.len, p);
    PosBelowTop(s);
  }

  lemma ValidLayout(s: Space)
    requires Valid(s)
    ensures Layout(s)
  {
  }

  lemma PosBelowTop(s: Space)
    requires Layout(s)
    ensures s.Pos() <= s.base + APP_MMAP_LEN
  {
  }

  /** Without DUNE a brk, NULL-hint mapping or stack never breaks the agreement, refused or not. */
  lemma ChosenNeverBreaks(s: Space, c: Call, o: Oracle)
    requires Valid(s) && s.kernel == s.table && !s.dune && PlacedLow(s) && Returns(c, o) && Chosen(c)
    ensures !Breaks(s, c, o)
  {
    hide Wanted, PagesOf;
    if Clobbers(s, c, o) {
      var w := Wanted(s, c).value;
      var p :| p in PagesOf(w.addr, w.len) * s.table;
      ChosenHitsOnlyPlaced(s, c, o, p);
      assert false;
    }
  }

  // ---------- Sequences of calls ----------

  datatype Made = Made(call: Call, answer: Oracle)

  ghost predicate AllReturn(cs: seq<Made>) {
    forall i :: 0 <= i < |cs| ==> Returns(cs[i].call, cs[i].answer)
  }

  /** The events of all calls in order; a call in a state out of order, which never happens, causes none. */
  ghost function History(s: Space, cs: seq<Made>): (es: seq<Event>) {
    if cs == [] then []
    else
      var n := |cs| - 1;
      var h := History(s, cs[..n]);
      if Layout(After(s, h)) then h + Events(After(s, h), cs[n].call, cs[n].answer) else h
  }

  ghost function Reached(s: Space, cs: seq<Made>): (s': Space) { After(s, History(s, cs)) }

  /** Every sequence of calls is a run, so everything proved of runs holds of it. */
  lemma {:induction false} CallsRun(s: Space, cs: seq<Made>)
    requires Init(s) && AllReturn(cs)
    ensures Run(s, History(s, cs), Reached(s, cs)) && Valid(Reached(s, cs))
  {
    hide Events, Apply, Enabled, Valid, Layout, Run;
    if cs == [] {
      assert Run(s, [], s) by { RunNothing(s); }
    } else {
      var n := |cs| - 1;
      CallsRun(s, cs[..n]);
      var m := Reached(s, cs[..n]);
      assert Layout(m) by { ValidLayout(m); }
      var es := Events(m, cs[n].call, cs[n].answer);
      CallRuns(m, cs[n].call, cs[n].answer);
      RunConcat(s, History(s, cs[..n]), m, es, After(m, es));
      AfterConcat(s, History(s, cs[..n]), es);
    }
    InitValid(s);
    RunKeepsValid(s, History(s, cs), Reached(s, cs));
  }

  lemma RunNothing(s: Space)
    ensures Run(s, [], s)
  {
  }

  /** The state before each call of a sequence, and the step to the next. */
  lemma CallsStep(s: Space, cs: seq<Made>)
    requires Init(s) && AllReturn(cs) && cs != []
    ensures var n := |cs| - 1; var m := Reached(s, cs[..n]);
            Valid(m) && Reached(s, cs) == After(m, Events(m, cs[n].call, cs[n].answer))
  {
    hide Events, Apply, Enabled, Run;
    var n := |cs| - 1;
    CallsRun(s, cs[..n]);
    AfterConcat(s, History(s, cs[..n]), Events(Reached(s, cs[..n]), cs[n].call, cs[n].answer));
  }

  /** No call at an explicit address broke the agreement. */
  ghost predicate NoneBreaks(s: Space, cs: seq<Made>) {
    forall i :: 0 <= i < |cs| && !Chosen(cs[i].call) ==>
      var m := Reached(s, cs[..i]); Layout(m) ==> !Breaks(m, cs[i].call, cs[i].answer)
  }

  /** Without DUNE, process mappings and pgroot agree after every sequence of calls in which no refused mapping at an
      explicit address replaced present pages and no shmat strayed; brk, NULL hints, the stack, munmap and mremap cannot
      break it. */
  lemma {:induction false} CallsAgree(s: Space, cs: seq<Made>)
    requires Init(s) && !s.dune && AllReturn(cs) && NoneBreaks(s, cs)
    ensures Reached(s, cs).kernel == Reached(s, cs).table
  {
    hide Events, Breaks, Valid, Layout, Apply;
    if cs != [] {
      var n := |cs| - 1;
      var m := Reached(s, cs[..n]);
      assert forall i :: 0 <= i < n ==> cs[..n][..i] == cs[..i];
      CallsAgree(s, cs[..n]);
      CallsStep(s, cs);
      assert Layout(m) by { ValidLayout(m); }
      CallAgreement(m, cs[n].call, cs[n].answer);
      if Chosen(cs[n].call) {
        CallsPlaced(s, cs[..n]);
        ChosenNeverBreaks(m, cs[n].call, cs[n].answer);
      }
    }
  }

  lemma CallsPlaced(s: Space, cs: seq<Made>)
    requires Init(s) && !s.dune && AllReturn(cs)
    ensures !Reached(s, cs).dune && PlacedLow(Reached(s, cs))
  {
    CallsRun(s, cs);
    RunPlaced(s, History(s, cs), Reached(s, cs));
  }

  /** With or without DUNE, and exactly: after any sequence of calls a page of pgroot is missing from the process, or a
      page of the process from pgroot, if and only if some event caused it and nothing has mended it since. */
  lemma CallsDifferIff(s: Space, cs: seq<Made>, p: nat, lost: bool)
    requires Init(s)
    ensures Differs(Reached(s, cs), p, lost) <==> Caused(s, History(s, cs), p, lost)
  {
    hide Caused, Differs, History, After;
    DiffersIffCaused(s, History(s, cs), p, lost);
  }

  /** The failure: a page mapped twice at an explicit address, the second time refused by pgroot. */
  lemma RefusedRemappingDisagrees(s: Space) returns (cs: seq<Made>)
    requires Init(s)
    ensures AllReturn(cs) && |cs| == 2
    ensures forall i :: 0 <= i < 2 ==> cs[i].call == Mmap(4096, 4096, true, -1) && cs[i].answer.kernel
    ensures Reached(s, cs).kernel != Reached(s, cs).table
  {
    var c := Mmap(4096, 4096, true, -1);
    var yes, no := Oracle(true, true, true), Oracle(true, true, false);
    cs := [Made(c, yes), Made(c, no)];
    assert cs[..1] == [Made(c, yes)];
    var m := Reached(s, cs[..1]);
    PlacedOnce(s, Made(c, yes));
    CallsStep(s, cs);
    hide Reached, Valid, PagesOf, Apply, Events, Wanted, Clobbers, Strays;
    assert Layout(m) by { ValidLayout(m); }
    CallAgreement(m, c, no);
    RepeatedClobbers(m, c, no);
  }

  lemma RepeatedClobbers(m: Space, c: Call, no: Oracle)
    requires Layout(m) && c == Mmap(4096, 4096, true, -1) && no.kernel && !no.pgroot
    requires 1 in PagesOf(4096, 4096) * m.table
    ensures Clobbers(m, c, no)
  {
    hide PagesOf, RoundUp;
    assert Wanted(m, c) == Some(Range(4096, 4096));
  }

  lemma PlacedOnce(s: Space, a: Made)
    requires Init(s) && a == Made(Mmap(4096, 4096, true, -1), Oracle(true, true, true))
    ensures var m := Reached(s, [a]); m.kernel == m.table && 1 in PagesOf(4096, 4096) * m.table
  {
    assert [a][..0] == [];
    assert Reached(s, []) == s;
    CallsStep(s, [a]);
    assert Layout(s) && s.kernel == s.table by { InitValid(s); }
    hide Reached, Valid, PagesOf, RoundUp, Events, Init, Layout;
    PlacedEvents(s, a);
    assert [Place(4096, 4096)][..0] == [];
    assert After(s, [Place(4096, 4096)]) == Apply(s, Place(4096, 4096));
    PageInRange(4096, 4096, 1);
  }

  lemma PlacedEvents(s: Space, a: Made)
    requires Layout(s) && a == Made(Mmap(4096, 4096, true, -1), Oracle(true, true, true))
    ensures Events(s, a.call, a.answer) == [Place(4096, 4096)]
  {
    hide PagesOf, RoundUp, Layout;
    assert Wanted(s, a.call) == Some(Range(4096, 4096));
  }

  /** The other failure: with SHM_RND and an unaligned address the segment is attached, reported as a failure and left
      in the process alone. */
  lemma RoundedAttachmentDisagrees(s: Space) returns (cs: seq<Made>)
    requires Init(s) && 1 !in s.table
    ensures AllReturn(cs) && |cs| == 1 && cs[0].call == Shmat(4097, 4096, true)
    ensures Differs(Reached(s, cs), 1, false)
  {
    var c, yes := Shmat(4097, 4096, true), Oracle(true, true, true);
    cs := [Made(c, yes)];
    assert cs[..0] == [] && Reached(s, []) == s;
    CallsStep(s, cs);
    hide Reached, Valid, PagesOf, RoundUp, Events, Init;
    assert Layout(s) by { InitValid(s); ValidLayout(s); }
    RoundedEvents(s, c, yes);
    hide Layout;
    assert [Stray(4097, 4096)][..0] == [];
    assert After(s, [Stray(4097, 4096)]) == Apply(s, Stray(4097, 4096));
    PageInRange(4096, 4096, 1);
  }

  lemma RoundedEvents(s: Space, c: Call, yes: Oracle)
    requires Layout(s) && c == Shmat(4097, 4096, true) && yes.kernel
    ensures Events(s, c, yes) == [Stray(4097, 4096)] && PgAddr(4097) == 4096
  {
    hide RoundUp, Layout;
    assert Rounded(c);
    assert Attaches(s, c, yes);
  }
}
