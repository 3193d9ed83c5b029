/** Two runs on a small machine with one page of globals and one thread.  In the first a system call fills a buffer in a
    page the thread has not touched yet, and the thread that is reused finds the byte.  In the second the buffer runs
    from the thread's stack into the globals directly above it, and the fill reaches the master's page. */
module SthreadExample {
  import opened Common
  import opened PageTables
  import opened SthreadModel
  import opened SthreadSteps
  import opened SthreadInvariant
  import opened SthreadRuns

  /** Page g, 0 or 13, is the global page, 1 its checkpoint, 2 the private copy, 3 to 12 the stack. */
  function OwnerOf(g: nat, p: nat): (r: Owner) {
    if p == g then SegmentPage else if p == 1 then CheckpointPage(0) else if p == 2 then PrivatePage(1, 0)
    else if Within(p, 3, STACK_PAGES) then StackPage(1, p - 3) else Free
  }

  function EntryOf(p: nat): (r: Pte) { Pte(p + 1, true, true, false, false) }

  function ThreadEntryOf(g: nat, p: nat): (r: Pte) {
    if p == g then Pte(3, true, true, true, false) else Pte(p + 1, true, true, Within(p, 3, STACK_PAGES), false)
  }

  function Owners(g: nat): (r: map<nat, Owner>) { map p: nat | p < 14 && Within(p, 0, 14) :: OwnerOf(g, p) }

  function Master(): (r: Table) { map p: nat | p < 14 && Within(p, 0, 14) :: EntryOf(p) }

  function ThreadTable(g: nat): (r: Table) { map p: nat | p < 14 && Within(p, 0, 14) :: ThreadEntryOf(g, p) }

  function Memory(): (r: map<nat, Page>) { map f: nat | f < 15 && Within(f, 0, 15) :: ZeroPage() }

  function Globals(g: nat): (r: Segment) { Segment(g, 1, true) }

  function Thread(g: nat, state: State): (t: Sthread) {
    Sthread(1, state, 0, Sc([0, 0, 0, 0, 0, 0, 0, 0], [], []), 3, 2, ThreadTable(g))
  }

  function Example(g: nat, mem: map<nat, Page>, state: State): (w: World) {
    World(mem, Master(), [Globals(g)], [g], 1, [Thread(g, state)], 1, Owners(g))
  }

  // ---------- The machine is in order ----------

  lemma SegmentsAre(g: nat, p: nat)
    ensures SegmentOf([Globals(g)], p) == if p == g then Some(Globals(g)) else None
  {
    assert [Globals(g)][1..] == [];
  }

  lemma NoGrants(p: nat)
    ensures GrantFor([0, 0, 0, 0, 0, 0, 0, 0], p) == None
  {
  }

  ghost predicate Backed(mem: map<nat, Page>) { forall f: nat :: Within(f, 0, 15) ==> f in mem }

  lemma MemoryBacked()
    ensures Backed(Memory())
  {
  }

  lemma ExampleMachine(g: nat, mem: map<nat, Page>, state: State)
    requires (g == 0 || g == 13) && Backed(mem)
    ensures Machine(Example(g, mem, state))
  {
    var w := Example(g, mem, state);
    forall p | p in w.owner
      ensures w.owner[p] == SegmentPage <==> SegmentOf(w.segs, p).Some?
      ensures p in w.pages <==> SegmentOf(w.segs, p).Some? && SegmentOf(w.segs, p).value.writable
      ensures SegmentOf(w.segs, p).Some? && !SegmentOf(w.segs, p).value.writable ==> !w.pgroot[p].write
    {
      SegmentsAre(g, p);
    }
  }

  lemma ExampleLayout(g: nat, mem: map<nat, Page>, state: State)
    ensures LayoutOk(Example(g, mem, state))
  {
    assert [Globals(g)][1..] == [] && WritablePages([]) == [];
    assert PageRange(g, 1) == [g];
  }

  lemma ExampleBuilt(g: nat)
    requires g == 0 || g == 13
    ensures Built(ThreadTable(g), Master(), [Globals(g)], [g], [0, 0, 0, 0, 0, 0, 0, 0], 3, 2)
  {
    var words: seq<nat> := [0, 0, 0, 0, 0, 0, 0, 0];
    var segs := [Globals(g)];
    forall p {:trigger Protected(Master()[p], segs, words, 3, p)} | p in ThreadTable(g) && p !in [g]
      ensures ThreadTable(g)[p].Access() == Protected(Master()[p], segs, words, 3, p).Access()
    {
      SegmentsAre(g, p);
      NoGrants(p);
    }
    assert BuiltPrivate(ThreadTable(g), Master(), [g], 2);
  }

  lemma ExampleRegions(g: nat, mem: map<nat, Page>, state: State)
    requires g == 0 || g == 13
    ensures RegionsOk(Example(g, mem, state), 1, 3, 2)
  {
  }

  lemma ExampleSound(g: nat, mem: map<nat, Page>, state: State)
    requires (g == 0 || g == 13) && Backed(mem)
    ensures Sound(Example(g, mem, state))
  {
    ExampleMachine(g, mem, state);
    ExampleLayout(g, mem, state);
    ExampleBuilt(g);
    ExampleRegions(g, mem, state);
    hide Machine, LayoutOk, Built, RegionsOk, Owners, Master, ThreadTable, Backed;
    assert GrantsOk(Example(g, mem, state), Thread(g, state).sc.mem);
  }

  lemma ExampleInv(g: nat)
    requires g == 0 || g == 13
    ensures Inv(Example(g, Memory(), Running))
  {
    ExampleSound(g, Memory(), Running);
    hide Sound, Owners;
    var w := Example(g, Memory(), Running);
    forall p: nat | 2 <= p < 3 ensures PrivatePristine(w, 2, p) {
      assert w.pgroot[p] == EntryOf(p) && w.pgroot[1] == EntryOf(1);
    }
    forall p: nat | 3 <= p < 3 + STACK_PAGES ensures StackPristine(w, p) {
      assert w.pgroot[p] == EntryOf(p);
    }
    assert Restorable(w, w.threads[0]);
  }

  lemma IndexIs(g: nat, mem: map<nat, Page>, state: State)
    ensures IndexOf(Example(g, mem, state).threads, 1) == 0
  {
  }

  lemma EntriesAre(g: nat, p: nat)
    requires p < 14
    ensures p in ThreadTable(g) && ThreadTable(g)[p] == ThreadEntryOf(g, p)
    ensures p in Master() && Master()[p] == EntryOf(p)
    ensures p in Owners(g) && Owners(g)[p] == OwnerOf(g, p)
  {
    assert Within(p, 0, 14);
  }

  // ---------- A fill recycle does not notice ----------

  /** Memory after the kernel wrote 1 to the first byte of the private copy. */
  function Filled(): (r: map<nat, Page>) { Memory()[3 := ZeroPage()[0 := 1]] }

  lemma FillHappens()
    ensures FillStep(Example(0, Memory(), Running), 0, 0, 1, 0, 1, Example(0, Filled(), Running))
    ensures FillInRegion(Example(0, Memory(), Running), 0, 0, 0)
    ensures !FillTracked(Example(0, Memory(), Running), 0, 0, 0, 1)
  {
    hide Owners, Master, ThreadTable;
    EntriesAre(0, 0);
    EntriesAre(0, 2);
    var w := Example(0, Memory(), Running);
    assert FillChanges(w, 0, 0, 0, 1, 2);
    assert Uncovered(w, w.threads[0], 2);
  }

  lemma NothingDirty()
    ensures RecycledTable(ThreadTable(0), [0]) == ThreadTable(0)
    ensures forall p :: p in ThreadTable(0) ==> !ThreadTable(0)[p].dirty
    ensures 0 in ThreadTable(0)
  {
  }

  lemma ContentKept(w: World, t: Sthread, p: nat)
    requires Machine(w) && Laid(w, t) && p in w.pgroot && w.pages == [0] && t.table == ThreadTable(0)
    ensures RecycledContent(w, t, p) == Content(w, p)
  {
    hide Machine, Laid, ThreadTable;
    NothingDirty();
  }

  lemma MemoryStays(w: World, p: nat)
    requires Machine(w) && p in w.pgroot
    ensures w.pgroot[p].frame in w.mem
  {
  }

  /** Nothing is dirty, so recycle restores nothing. */
  lemma CleanExit(w: World, w': World)
    requires Machine(w) && |w.threads| == 1 && Laid(w, w.threads[0]) && w.pages == [0]
    requires w.threads[0].table == ThreadTable(0) && w.threads[0].state == Running
    requires w' == w.(threads := [w.threads[0].(state := Zombie, ret := 0)])
    ensures ExitStep(w, 0, 0, w')
  {
    hide Laid, Machine, ThreadTable, RecycledContent, RecycledTable;
    NothingDirty();
    var t := w.threads[0];
    assert w.threads[0 := t.(state := Zombie, ret := 0, table := RecycledTable(t.table, w.pages))] == w'.threads;
    forall p | p in w.pgroot ensures w.pgroot[p].frame in w'.mem {
      MemoryStays(w, p);
    }
    forall p {:trigger Content(w', p)} | p in w.pgroot
      ensures Content(w', p) == RecycledContent(w, t, p)
    {
      ContentKept(w, t, p);
    }
  }

  lemma SoundParts(w: World)
    requires Sound(w)
    ensures Machine(w) && forall i :: 0 <= i < |w.threads| ==> Laid(w, w.threads[i])
  {
  }

  lemma FillNext()
    ensures Sound(Example(0, Memory(), Running))
    ensures Next(Example(0, Memory(), Running), Fill(1, 0, 1, 0, 1), Example(0, Filled(), Running))
    ensures !Tracked(Example(0, Memory(), Running), Fill(1, 0, 1, 0, 1))
  {
    hide Sound, FillStep, FillInRegion, FillTracked, Memory, Filled, Owners, Master, ThreadTable, Backed;
    MemoryBacked();
    ExampleSound(0, Memory(), Running);
    FillHappens();
    IndexIs(0, Memory(), Running);
  }

  lemma ExitNext()
    ensures Sound(Example(0, Filled(), Running))
    ensures Next(Example(0, Filled(), Running), Exit(1, 0), Example(0, Filled(), Zombie))
  {
    ExampleSound(0, Filled(), Running);
    var w := Example(0, Filled(), Running);
    hide Sound, Laid, Machine, Owners, Master, ThreadTable, Filled, ExitStep;
    assert Machine(w) && Laid(w, w.threads[0]) by { SoundParts(w); }
    CleanExit(w, Example(0, Filled(), Zombie));
    IndexIs(0, Filled(), Running);
  }

  lemma JoinNext()
    ensures Sound(Example(0, Filled(), Zombie))
    ensures Next(Example(0, Filled(), Zombie), Join(1), Example(0, Filled(), Dead))
  {
    ExampleSound(0, Filled(), Zombie);
    hide Sound, Filled, Owners, Master, ThreadTable;
    IndexIs(0, Filled(), Zombie);
  }

  lemma CreateNext()
    ensures Sound(Example(0, Filled(), Dead))
    ensures Next(Example(0, Filled(), Dead), Create(Thread(0, Dead).sc, 0, 0), Example(0, Filled(), Running))
  {
    ExampleSound(0, Filled(), Dead);
    hide Sound, Filled, Owners, Master, ThreadTable;
    assert ReusableIndex([Thread(0, Dead)], Thread(0, Dead).sc.mem) == 0;
  }

  lemma NotPristine()
    ensures var w := Example(0, Filled(), Running);
            |w.threads| == 1 && w.threads[0].state == Running && !Pristine(w, w.threads[0])
  {
    hide Owners, ThreadTable, Master;
    var w := Example(0, Filled(), Running);
    EntriesAre(0, 1);
    EntriesAre(0, 2);
    assert Content(w, 2)[0] == 1 && Content(w, 1)[0] == 0;
    assert !PrivatePristine(w, 2, 2);
  }

  /** A run from a world in which every thread is restorable: a fill, the thread's exit, a join and a create that
      reuses the thread.  The new incarnation starts with the kernel's byte instead of the checkpointed one. */
  lemma ReusedThreadSeesOldByte() returns (ws: seq<World>, ss: seq<Step>)
    ensures IsRun(ws, ss) && Inv(ws[0]) && |ss| == 4
    ensures ss[0].Fill? && !Tracked(ws[0], ss[0]) && ss[1].Exit? && ss[2].Join? && ss[3].Create?
    ensures |ws[4].threads| == 1 && ws[4].threads[0].state == Running && !Pristine(ws[4], ws[4].threads[0])
  {
    hide Sound, Inv, Next, Tracked, Pristine, Example, Filled, Memory;
    ws := [Example(0, Memory(), Running), Example(0, Filled(), Running), Example(0, Filled(), Zombie),
           Example(0, Filled(), Dead), Example(0, Filled(), Running)];
    ss := [Fill(1, 0, 1, 0, 1), Exit(1, 0), Join(1), Create(Thread(0, Dead).sc, 0, 0)];
    ExampleInv(0);
    FillNext();
    ExitNext();
    JoinNext();
    CreateNext();
    NotPristine();
  }

  // ---------- A fill that leaves the thread's memory ----------

  /** The last byte of the stack. */
  const TOP: nat := 12 * PGSIZE + 4095

  /** Memory after the kernel wrote 1 to the first byte of the master's globals. */
  function Crossed(): (r: map<nat, Page>) { Memory()[14 := ZeroPage()[0 := 1]] }

  lemma CrossingPages()
    ensures TOP / PGSIZE == 12 && TOP % PGSIZE == 4095 && (TOP + 2) / PGSIZE == 13
  {
  }

  /** Both pages of the buffer are writable for the thread, and its second byte goes to the frame after the stack's
      last, which is the master's own. */
  lemma CrossingHappens()
    ensures FillStep(Example(13, Memory(), Running), 0, TOP, 2, 1, 1, Example(13, Crossed(), Running))
    ensures FillChanges(Example(13, Memory(), Running), 0, TOP, 1, 1, 13)
  {
    hide Owners, Master, ThreadTable;
    CrossingPages();
    EntriesAre(13, 12);
    EntriesAre(13, 13);
    var w := Example(13, Memory(), Running);
    assert MemPerm(ThreadTable(13), TOP, 2);
    assert Rewritten(ThreadTable(13), TOP) + 1 == 14 * PGSIZE;
    assert (14 * PGSIZE) / PGSIZE == 14 && (14 * PGSIZE) % PGSIZE == 0;
  }

  lemma CrossingNext()
    ensures Sound(Example(13, Memory(), Running))
    ensures Next(Example(13, Memory(), Running), Fill(1, TOP, 2, 1, 1), Example(13, Crossed(), Running))
    ensures !Stays(Example(13, Memory(), Running), Fill(1, TOP, 2, 1, 1))
  {
    hide Backed;
    MemoryBacked();
    ExampleSound(13, Memory(), Running);
    CrossingHappens();
    var w := Example(13, Memory(), Running);
    assert !OwnOrGranted(w, w.threads[0], 13) by { EntriesAre(13, 13); }
    hide Sound, FillStep, FillChanges, OwnOrGranted, Memory, Crossed, Owners, Master, ThreadTable;
    IndexIs(13, Memory(), Running);
  }

  lemma MasterChanged()
    ensures var a, b := Example(13, Memory(), Running), Example(13, Crossed(), Running);
            && 13 in a.owner && a.owner[13] == SegmentPage && 13 in a.pgroot && 13 in b.pgroot
            && a.pgroot[13].frame in a.mem && b.pgroot[13].frame in b.mem && Content(b, 13) != Content(a, 13)
  {
    hide Owners, ThreadTable, Master;
    EntriesAre(13, 13);
    var a, b := Example(13, Memory(), Running), Example(13, Crossed(), Running);
    assert Content(b, 13)[0] == 1 && Content(a, 13)[0] == 0;
  }

  /** A run of one fill, which has_mem_perm accepts, that changes the master's globals without a master store. */
  lemma CrossingFillReachesMaster() returns (ws: seq<World>, ss: seq<Step>)
    ensures IsRun(ws, ss) && Inv(ws[0]) && |ss| == 1 && ss[0].Fill? && !Stays(ws[0], ss[0])
    ensures 13 in ws[0].owner && ws[0].owner[13] == SegmentPage && 13 in ws[0].pgroot && 13 in ws[1].pgroot
    ensures ws[0].pgroot[13].frame in ws[0].mem && ws[1].pgroot[13].frame in ws[1].mem
    ensures Content(ws[1], 13) != Content(ws[0], 13)
  {
    hide Sound, Inv, Next, Stays, Example, Crossed, Memory, Content;
    ws := [Example(13, Memory(), Running), Example(13, Crossed(), Running)];
    ss := [Fill(1, TOP, 2, 1, 1)];
    ExampleInv(13);
    CrossingNext();
    MasterChanged();
  }
}
