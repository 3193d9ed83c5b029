/** Theorems about whole runs of the sthread runtime. */
module SthreadRuns {
  import opened Common
  import opened PageTables
  import opened SthreadModel
  import opened SthreadSteps
  import opened SthreadInvariant

  /** A run: worlds ws, with step ss[i] leading from ws[i] to ws[i + 1]. */
  ghost predicate IsRun(ws: seq<World>, ss: seq<Step>) {
    && |ws| == |ss| + 1
    && Sound(ws[0])
    && forall i :: 0 <= i < |ss| ==> Sound(ws[i]) ==> Next(ws[i], ss[i], ws[i + 1])
  }

  /** A run that starts with restorable threads and in which recycle notices every buffer fill. */
  ghost predicate IsTrackedRun(ws: seq<World>, ss: seq<Step>) {
    IsRun(ws, ss) && Inv(ws[0]) && forall i :: 0 <= i < |ss| ==> Tracked(ws[i], ss[i])
  }

  /** In every world of every run memory, page tables and grants are in order. */
  lemma {:induction false} RunSound(ws: seq<World>, ss: seq<Step>, n: nat)
    requires IsRun(ws, ss) && n < |ws|
    ensures Sound(ws[n])
  {
    if n > 0 {
      hide Sound, Next;
      RunSound(ws, ss, n - 1);
      StepKeepsSound(ws[n - 1], ss[n - 1], ws[n]);
    }
  }

  /** In every world of a tracked run every thread can be restored, too. */
  lemma {:induction false} RunInv(ws: seq<World>, ss: seq<Step>, n: nat)
    requires IsTrackedRun(ws, ss) && n < |ws|
    ensures Inv(ws[n])
  {
    if n > 0 {
      hide Next, Tracked;
      RunInv(ws, ss, n - 1);
      StepKeepsInv(ws[n - 1], ss[n - 1], ws[n]);
    }
  }

  lemma RunStep(ws: seq<World>, ss: seq<Step>, n: nat)
    requires IsRun(ws, ss) && n < |ss|
    ensures Sound(ws[n]) && Next(ws[n], ss[n], ws[n + 1]) && Sound(ws[n + 1])
  {
    RunSound(ws, ss, n);
    RunSound(ws, ss, n + 1);
  }

  // ---------- Isolation ----------

  lemma CompatibleTransitive(a: World, b: World, c: World)
    requires Compatible(a, b) && Compatible(b, c) && FramesOk(a) && FramesOk(b)
    ensures Compatible(a, c)
  {
    FramesStable(a, b);
    forall p | p in a.pgroot
      ensures a.pgroot[p].frame in c.mem
    {
      assert b.pgroot[p].frame == a.pgroot[p].frame;
    }
  }

  lemma CompatibleReflexive(w: World)
    requires FramesOk(w)
    ensures Compatible(w, w)
  {
  }

  lemma {:induction false} RunCompatible(ws: seq<World>, ss: seq<Step>, m: nat, n: nat)
    requires IsRun(ws, ss) && m <= n < |ws|
    ensures Sound(ws[m]) && Sound(ws[n]) && Compatible(ws[m], ws[n])
  {
    hide Next, Compatible, FramesOk, SegmentsOk, CheckpointOk, LayoutOk, Laid;
    RunSound(ws, ss, m);
    RunSound(ws, ss, n);
    if m < n {
      RunCompatible(ws, ss, m, n - 1);
      RunStep(ws, ss, n - 1);
      StepCompatible(ws[n - 1], ss[n - 1], ws[n]);
      CompatibleTransitive(ws[m], ws[n - 1], ws[n]);
    } else {
      CompatibleReflexive(ws[m]);
    }
  }

  lemma PageStays(a: World, b: World, p: nat)
    requires Machine(a) && Machine(b) && Compatible(a, b) && p in a.owner
    ensures p in b.owner && p in b.pgroot && b.pgroot[p].frame in b.mem
  {
  }

  /** A page no step of the run touches holds the same at the end as at the beginning. */
  lemma {:induction false} RunIsolation(ws: seq<World>, ss: seq<Step>, m: nat, n: nat, p: nat)
    requires IsRun(ws, ss) && m <= n < |ws|
    requires p in ws[m].owner
    requires forall i :: m <= i < n ==> !Touches(ws[i], ss[i], p)
    ensures Sound(ws[m]) && Sound(ws[n]) && p in ws[n].pgroot
    ensures Content(ws[n], p) == Content(ws[m], p)
  {
    hide Next, Touches, Machine, Compatible, LayoutOk, Laid, DistinctIds, Content;
    RunCompatible(ws, ss, m, n);
    PageStays(ws[m], ws[n], p);
    if m < n {
      RunIsolation(ws, ss, m, n - 1, p);
      RunStep(ws, ss, n - 1);
      RunCompatible(ws, ss, m, n - 1);
      PageStays(ws[m], ws[n - 1], p);
      StepCompatible(ws[n - 1], ss[n - 1], ws[n]);
      StepFrame(ws[n - 1], ss[n - 1], ws[n], p);
    }
  }

  /** Every fill of the stretch stays in memory its thread owns or was granted. */
  ghost predicate FillsStay(ws: seq<World>, ss: seq<Step>, m: nat, n: nat)
    requires m <= n <= |ss| <= |ws|
  {
    forall i :: m <= i < n ==> Stays(ws[i], ss[i])
  }

  /** Fills whose buffers lie in one region do. */
  lemma RegionFillsStay(ws: seq<World>, ss: seq<Step>, m: nat, n: nat)
    requires IsRun(ws, ss) && m <= n <= |ss|
    requires forall i :: m <= i < n && ss[i].Fill? ==>
               var k := IndexOf(ws[i].threads, ss[i].id);
               k < |ws[i].threads| ==> FillInRegion(ws[i], k, ss[i].ptr, ss[i].at)
    ensures FillsStay(ws, ss, m, n)
  {
    hide Sound, FillInRegion, Stays;
    forall i | m <= i < n ensures Stays(ws[i], ss[i]) {
      RunStep(ws, ss, i);
      RegionStepStays(ws[i], ss[i], ws[i + 1]);
    }
  }

  /** While fills stay, no step but those of thread `id` itself touches its private memory or its stack. */
  lemma PrivateMemoryIsolated(ws: seq<World>, ss: seq<Step>, m: nat, n: nat, id: int, p: nat)
    requires IsRun(ws, ss) && m <= n < |ws| && p in ws[m].owner && FillsStay(ws, ss, m, n)
    requires ws[m].owner[p].PrivatePage? || ws[m].owner[p].StackPage?
    requires ws[m].owner[p].id == id
    requires forall i :: m <= i < n ==>
               !(ss[i].Store? && ss[i].id == id) && !(ss[i].Fill? && ss[i].id == id) && !(ss[i].Exit? && ss[i].id == id)
    ensures Sound(ws[m]) && Sound(ws[n]) && p in ws[n].pgroot
    ensures Content(ws[n], p) == Content(ws[m], p)
  {
    hide Next, Sound, Touches, Stays;
    forall i | m <= i < n
      ensures !Touches(ws[i], ss[i], p)
    {
      RunCompatible(ws, ss, m, i);
      if Touches(ws[i], ss[i], p) { StayingTouches(ws[i], ss[i], p); }
      assert ws[i].owner[p] == ws[m].owner[p];
    }
    RunIsolation(ws, ss, m, n, p);
  }

  /** While fills stay, sthreads never change the master's globals: only master stores do. */
  lemma MasterMemoryIsolated(ws: seq<World>, ss: seq<Step>, m: nat, n: nat, p: nat)
    requires IsRun(ws, ss) && m <= n < |ws| && p in ws[m].owner && ws[m].owner[p] == SegmentPage
    requires FillsStay(ws, ss, m, n)
    requires forall i :: m <= i < n ==> !ss[i].MasterStore?
    ensures Sound(ws[m]) && Sound(ws[n]) && p in ws[n].pgroot
    ensures Content(ws[n], p) == Content(ws[m], p)
  {
    hide Next, Sound, Touches, Stays;
    forall i | m <= i < n
      ensures !Touches(ws[i], ss[i], p)
    {
      RunCompatible(ws, ss, m, i);
      if Touches(ws[i], ss[i], p) { StayingTouches(ws[i], ss[i], p); }
      assert ws[i].owner[p] == SegmentPage;
    }
    RunIsolation(ws, ss, m, n, p);
  }

  /** While fills stay, nothing changes the checkpoint. */
  lemma CheckpointIsolated(ws: seq<World>, ss: seq<Step>, m: nat, n: nat, p: nat)
    requires IsRun(ws, ss) && m <= n < |ws| && p in ws[m].owner && ws[m].owner[p].CheckpointPage?
    requires FillsStay(ws, ss, m, n)
    ensures Sound(ws[m]) && Sound(ws[n]) && p in ws[n].pgroot
    ensures Content(ws[n], p) == Content(ws[m], p)
  {
    hide Next, Sound, Touches, Stays;
    forall i | m <= i < n
      ensures !Touches(ws[i], ss[i], p)
    {
      RunCompatible(ws, ss, m, i);
      if Touches(ws[i], ss[i], p) { StayingTouches(ws[i], ss[i], p); }
      assert ws[i].owner[p] == ws[m].owner[p];
    }
    RunIsolation(ws, ss, m, n, p);
  }

  // ---------- Recycling agrees with fresh creation ----------

  /** The k-th writable page leads, writable, to the k-th page of the thread's private copy. */
  ghost predicate PrivateAccess(pgroot: Table, pages: seq<nat>, t: Sthread) {
    forall k :: 0 <= k < |pages| ==>
      && pages[k] in t.table && t.writable + k in pgroot
      && t.table[pages[k]].UserWritable() && t.table[pages[k]].frame == pgroot[t.writable + k].frame
  }

  /** The thread's stack is open to it. */
  ghost predicate StackOpen(pgroot: Table, t: Sthread) {
    forall p :: Within(p, t.stack, STACK_PAGES) ==>
      p in t.table && p in pgroot && t.table[p].UserWritable() && t.table[p].frame == pgroot[p].frame
  }

  /** Thread t cannot touch the pages of a stack that is not its own. */
  ghost predicate StackClosed(t: Sthread, stack: nat) {
    forall p :: Within(p, stack, STACK_PAGES) ==> p in t.table && !t.table[p].user
  }

  /** The page tables of a and b give the same accesses page by page, with the k-th private page and the
      k-th stack page of one in the place of the other's; neither can touch the other's stack. */
  ghost predicate SameAccesses(pgroot: Table, pages: seq<nat>, a: Sthread, b: Sthread) {
    && a.table.Keys == b.table.Keys == pgroot.Keys
    && PrivateAccess(pgroot, pages, a) && PrivateAccess(pgroot, pages, b)
    && StackOpen(pgroot, a) && StackOpen(pgroot, b) && StackClosed(a, b.stack) && StackClosed(b, a.stack)
    && forall p :: p in a.table && p !in pages && !Within(p, a.stack, STACK_PAGES) && !Within(p, b.stack, STACK_PAGES)
         ==> a.table[p].Access() == b.table[p].Access()
  }

  /** Stack pages are neither segments nor tags, so walk_protect opens them and leaves them writable. */
  lemma StackAccess(w: World, t: Sthread, p: nat)
    requires Machine(w) && Laid(w, t) && t.stack <= p < t.stack + 10
    ensures p in t.table && p in w.pgroot && t.table[p].UserWritable() && t.table[p].frame == w.pgroot[p].frame
    ensures p !in w.pages
  {
    assert w.owner[p] == StackPage(t.id, p - t.stack);
    assert SegmentOf(w.segs, p).None?;
    if GrantFor(t.sc.mem, p).Some? {
      GrantForCovers(t.sc.mem, p);
      assert false;
    }
    assert t.table[p].Access() == Protected(w.pgroot[p], w.segs, t.sc.mem, t.stack, p).Access();
  }

  lemma BuiltAlike(w: World, a: Sthread, b: Sthread, p: nat)
    requires Built(a.table, w.pgroot, w.segs, w.pages, a.sc.mem, a.stack, a.writable)
    requires Built(b.table, w.pgroot, w.segs, w.pages, b.sc.mem, b.stack, b.writable)
    requires a.sc.mem == b.sc.mem && p in a.table && p !in w.pages
    requires !(a.stack <= p < a.stack + STACK_PAGES) && !(b.stack <= p < b.stack + STACK_PAGES)
    ensures a.table[p].Access() == b.table[p].Access()
  {
    assert a.table[p].Access() == Protected(w.pgroot[p], w.segs, a.sc.mem, a.stack, p).Access();
    assert b.table[p].Access() == Protected(w.pgroot[p], w.segs, b.sc.mem, b.stack, p).Access();
  }

  lemma LaidStackOpen(w: World, t: Sthread)
    requires Machine(w) && Laid(w, t)
    ensures StackOpen(w.pgroot, t)
  {
    hide Laid;
    forall p: nat | Within(p, t.stack, STACK_PAGES)
      ensures p in t.table && p in w.pgroot && t.table[p].UserWritable() && t.table[p].frame == w.pgroot[p].frame
    {
      StackAccess(w, t, p);
    }
  }

  lemma BuiltPrivateAccess(t: Sthread, pgroot: Table, pages: seq<nat>)
    requires BuiltPrivate(t.table, pgroot, pages, t.writable)
    ensures PrivateAccess(pgroot, pages, t)
  {
    forall k | 0 <= k < |pages|
      ensures pages[k] in t.table && t.writable + k in pgroot
      ensures t.table[pages[k]].UserWritable() && t.table[pages[k]].frame == pgroot[t.writable + k].frame
    {
      assert t.table[pages[k]].Access() == Pte(pgroot[t.writable + k].frame, true, true, true, false);
    }
  }

  /** The stack of another thread is denied. */
  lemma OtherStackClosed(w: World, t: Sthread, other: Sthread)
    requires Machine(w) && Laid(w, t) && Laid(w, other) && t.id != other.id
    ensures StackClosed(t, other.stack)
  {
    hide BuiltPrivate, GrantsOk, CheckpointOk;
    forall p: nat | Within(p, other.stack, STACK_PAGES) ensures p in t.table && !t.table[p].user {
      StackAccess(w, other, p);
      assert w.owner[p] == StackPage(other.id, p - other.stack);
      var _ := SegmentOf(w.segs, p);
      NoGrantOnStack(w, t, p);
      assert t.table[p].Access() == Protected(w.pgroot[p], w.segs, t.sc.mem, t.stack, p).Access();
    }
  }

  lemma NoGrantOnStack(w: World, t: Sthread, p: nat)
    requires GrantsOk(w, t.sc.mem) && p in w.owner && w.owner[p].StackPage?
    ensures GrantFor(t.sc.mem, p).None?
  {
    if GrantFor(t.sc.mem, p).Some? { GrantForCovers(t.sc.mem, p); }
  }

  lemma LaidAlike(w: World, a: Sthread, b: Sthread)
    requires Machine(w) && Laid(w, a) && Laid(w, b) && a.sc.mem == b.sc.mem && a.id != b.id
    ensures SameAccesses(w.pgroot, w.pages, a, b)
  {
    hide BuiltPrivate, BuiltProtected, RegionsOk, GrantsOk, FramesOk, SegmentsOk, CheckpointOk, StackOpen,
      PrivateAccess, StackClosed;
    LaidStackOpen(w, a);
    LaidStackOpen(w, b);
    OtherStackClosed(w, a, b);
    OtherStackClosed(w, b, a);
    BuiltPrivateAccess(a, w.pgroot, w.pages);
    BuiltPrivateAccess(b, w.pgroot, w.pages);
    forall p: nat |
      p in a.table && p !in w.pages && !Within(p, a.stack, STACK_PAGES) && !Within(p, b.stack, STACK_PAGES)
      ensures a.table[p].Access() == b.table[p].Access()
    {
      BuiltAlike(w, a, b, p);
    }
  }

  lemma FreshPristine(w: World, sc: Sc, stack: nat, writable: nat, u: World)
    requires Machine(w) && CreateFresh(w, sc, stack, writable, u)
    ensures Pristine(u, u.threads[0])
  {
    forall p: nat | writable <= p < writable + |w.pages|
      ensures PrivatePristine(u, writable, p)
    {
      FreshPrivatePage(w, sc, stack, writable, u, p);
    }
    forall p: nat | stack <= p < stack + STACK_PAGES
      ensures StackPristine(u, p)
    {
      FreshStackPage(w, sc, stack, writable, u, p);
    }
  }

  lemma SamePristine(w: World, w': World, t: Sthread, t': Sthread)
    requires w' == w.(threads := w'.threads) && t'.writable == t.writable && t'.stack == t.stack
    ensures Pristine(w', t') <==> Pristine(w, t)
  {
    assert forall p :: PrivatePristine(w', t.writable, p) == PrivatePristine(w, t.writable, p);
    assert forall p :: StackPristine(w', p) == StackPristine(w, p);
  }

  /** In every tracked run, the thread sthread_create reuses starts exactly like the one create_new_sthread would
      build at that moment for the same grants: a private copy equal to the checkpoint, a zero stack, and
      the same accesses up to where private copy and stack lie. */
  lemma RecycleAgreesWithFresh(ws: seq<World>, ss: seq<Step>, n: nat, stack: nat, writable: nat, u: World)
    requires IsTrackedRun(ws, ss) && n < |ss| && ss[n].Create?
    requires Sound(ws[n]) && ReusableIndex(ws[n].threads, ss[n].sc.mem) < |ws[n].threads|
    requires CreateFresh(ws[n], ss[n].sc, stack, writable, u)
    ensures |ws[n + 1].threads| == |ws[n].threads|
    ensures var r := ws[n + 1].threads[ReusableIndex(ws[n].threads, ss[n].sc.mem)];
            var f := u.threads[0];
            && r.state == f.state == Running && r.sc == f.sc
            && Pristine(ws[n + 1], r) && Pristine(u, f)
            && SameAccesses(ws[n].pgroot, ws[n].pages, r, f)
  {
    hide Inv, Sound, CreateFresh, Pristine;
    RunStep(ws, ss, n);
    RunInv(ws, ss, n);
    var i := ReusableIndex(ws[n].threads, ss[n].sc.mem);
    DeadRestorable(ws[n], i);
    ReuseStartsLikeFresh(ws[n], ss[n].sc, ws[n + 1], stack, writable, u);
  }

  lemma DeadRestorable(w: World, i: nat)
    requires Inv(w) && i < |w.threads| && w.threads[i].state != Running
    ensures Pristine(w, w.threads[i])
  {
    assert Restorable(w, w.threads[i]);
  }

  /** In every run, tracked or not, the reused thread has the accesses of a new one and its grants; it starts with
      the contents of a new one exactly when the dead thread's memory is pristine. */
  lemma ReuseStartsLikeFresh(w: World, sc: Sc, w': World, stack: nat, writable: nat, u: World)
    requires Sound(w) && CreateFresh(w, sc, stack, writable, u)
    requires ReusableIndex(w.threads, sc.mem) < |w.threads| && CreateReuse(w, sc, ReusableIndex(w.threads, sc.mem), w')
    ensures var d := w.threads[ReusableIndex(w.threads, sc.mem)];
            var r := w'.threads[ReusableIndex(w.threads, sc.mem)];
            var f := u.threads[0];
            && r.state == f.state == Running && r.sc == f.sc && Pristine(u, f)
            && (Pristine(w', r) <==> Pristine(w, d))
            && SameAccesses(w.pgroot, w.pages, r, f)
  {
    hide Built, RegionsOk, GrantsOk, FramesOk, SegmentsOk, CheckpointOk, Compatible, Pristine, FreshRegions,
      SameAccesses;
    var i := ReusableIndex(w.threads, sc.mem);
    var d := w.threads[i];
    var f := u.threads[0];
    CreateCompatible(w, sc, stack, writable, u);
    MachineStable(w, u);
    FreshLaid(w, sc, stack, writable, u);
    FreshPristine(w, sc, stack, writable, u);
    LaidStable(w, u, d);
    LaidAlike(u, w'.threads[i], f);
    SamePristine(w, w', d, w'.threads[i]);
  }

  // ---------- Reading ----------

  /** In every world of every run, whatever a thread can read is its own memory, a read-only segment or a granted
      tag. */
  lemma RunReads(ws: seq<World>, ss: seq<Step>, n: nat, i: nat, page: nat) returns (q: nat)
    requires IsRun(ws, ss) && n < |ws| && i < |ws[n].threads|
    requires var e := ws[n].threads[i].table; page in e && e[page].present && e[page].user
    ensures q in ws[n].pgroot && ws[n].threads[i].table[page].frame == ws[n].pgroot[q].frame
    ensures Readable(ws[n], ws[n].threads[i], q)
  {
    hide Readable, Leads;
    RunSound(ws, ss, n);
    q := ReadsOfThread(ws[n], ws[n].threads[i], page);
  }

  /** In every run, once tag_new has returned a tag, every thread whose first word for a page of it is i can read the
      page, and can write it exactly when that word has PROT_WRITE; what it reaches is the tag's own memory. */
  lemma RunTagOpen(ws: seq<World>, ss: seq<Step>, m: nat, n: nat, base: nat, k: nat, i: nat, page: nat)
    requires IsRun(ws, ss) && m < n < |ws| && ss[m] == TagNew(base) && base <= page < base + 10
    requires k < |ws[n].threads| && FirstNaming(ws[n].threads[k].sc.mem, i, page)
    ensures var t := ws[n].threads[k];
            && page in t.table && page in ws[n].pgroot && t.table[page].frame == ws[n].pgroot[page].frame
            && t.table[page].user && t.table[page].present
            && (t.table[page].write <==> t.sc.mem[i] / 2 % 2 == 1)
  {
    hide Sound, Next, Compatible, FirstNaming, Machine, Laid;
    RunStep(ws, ss, m);
    RunCompatible(ws, ss, m + 1, n);
    TagStepPresent(ws[m], base, ws[m + 1], page);
    AccessKept(ws[m + 1], ws[n], page);
    SoundLaid(ws[n], k);
    TagOpen(ws[n], ws[n].threads[k], i, page);
  }

  lemma TagStepPresent(w: World, base: nat, w': World, page: nat)
    requires Sound(w) && Next(w, TagNew(base), w') && base <= page < base + 10
    ensures page in w'.pgroot && w'.pgroot[page].present && w'.pgroot[page].write
  {
    hide Machine, TagNewStep;
    TagNewPresent(w, base, w', page);
  }

  lemma SoundLaid(w: World, k: nat)
    requires Sound(w) && k < |w.threads|
    ensures Machine(w) && LayoutOk(w) && Laid(w, w.threads[k])
  {
  }

  /** And in every world of every run every thread can read the read-only segments the master can read. */
  lemma RunReadOnlyOpen(ws: seq<World>, ss: seq<Step>, n: nat, k: nat, i: nat, page: nat)
    requires IsRun(ws, ss) && n < |ws| && k < |ws[n].threads| && page in ws[n].pgroot
    requires var g := ws[n].segs; i < |g| && !g[i].writable && g[i].start <= page < g[i].start + g[i].pages
    ensures var t := ws[n].threads[k];
            && page in t.table && t.table[page].frame == ws[n].pgroot[page].frame
            && t.table[page].user && t.table[page].present == ws[n].pgroot[page].present && !t.table[page].write
  {
    hide Laid, Machine;
    RunSound(ws, ss, n);
    ReadOnlyOpen(ws[n], ws[n].threads[k], i, page);
  }
}
