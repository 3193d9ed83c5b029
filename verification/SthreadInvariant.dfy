/** Every step keeps memory and page tables in order, and keeps every thread restorable exactly when it is tracked. */
module SthreadInvariant {
  import opened Common
  import opened PageTables
  import opened SthreadModel
  import opened SthreadSteps

  // ---------- The acting thread ----------

  lemma BuiltSameAccess(t: Table, t': Table, pgroot: Table, segs: seq<Segment>, pages: seq<nat>,
                        words: seq<nat>, stack: nat, writable: nat)
    requires Built(t, pgroot, segs, pages, words, stack, writable) && t'.Keys == t.Keys
    requires forall p :: p in t ==> t'[p].Access() == t[p].Access()
    ensures Built(t', pgroot, segs, pages, words, stack, writable)
  {
    forall k | 0 <= k < |pages|
      ensures pages[k] in t' && writable + k in pgroot
      ensures t'[pages[k]].Access() == Pte(pgroot[writable + k].frame, true, true, true, false)
    {
      assert t'[pages[k]].Access() == t[pages[k]].Access();
    }
  }

  /** A page other than the written one is as restorable as before. */
  lemma OtherPrivatePage(w: World, t: Sthread, page: nat, w': World, p: nat)
    requires Restorable(w, t) && page in t.table && w'.pages == w.pages && w'.ckpt == w.ckpt
    requires t.writable <= p < t.writable + |w.pages|
    requires p in w.pgroot && p in w'.pgroot && w.pgroot[p].frame in w.mem && w'.pgroot[p].frame in w'.mem
    requires Content(w', p) == Content(w, p)
    requires var c := w.ckpt + (p - t.writable);
             && c in w.pgroot && c in w'.pgroot && w.pgroot[c].frame in w.mem && w'.pgroot[c].frame in w'.mem
             && Content(w', c) == Content(w, c)
    requires !PrivatePristine(w', t.writable, p)
    ensures PrivateDirty(w', Dirtied(t, page), p)
  {
    if PrivatePristine(w, t.writable, p) {
      PristineStable(w, w', t, p);
      assert false;
    }
    assert PrivateDirty(w, t, p);
  }

  lemma DirtiedPrivatePage(w: World, i: nat, page: nat, q: nat, w': World, p: nat)
    requires FramesOk(w) && CheckpointOk(w) && i < |w.threads|
    requires RegionsOk(w, w.threads[i].id, w.threads[i].stack, w.threads[i].writable) && Restorable(w, w.threads[i])
    requires UserWrite(w, i, page, q, w') && Compatible(w, w') && FramesOk(w') && SameBut(w, w', q)
    requires w.threads[i].writable <= p < w.threads[i].writable + |w.pages|
    requires !PrivatePristine(w', w.threads[i].writable, p)
    ensures PrivateDirty(w', Dirtied(w.threads[i], page), p)
  {
    var t := w.threads[i];
    if p == q {
      assert w.pages[q - t.writable] == page;
    } else {
      assert w.owner[p].PrivatePage? && w.owner[w.ckpt + (p - t.writable)].CheckpointPage?;
      OtherPrivatePage(w, t, page, w', p);
    }
  }

  lemma DirtiedStackPage(w: World, i: nat, page: nat, q: nat, w': World, p: nat)
    requires FramesOk(w) && i < |w.threads|
    requires RegionsOk(w, w.threads[i].id, w.threads[i].stack, w.threads[i].writable) && Restorable(w, w.threads[i])
    requires UserWrite(w, i, page, q, w') && Compatible(w, w') && FramesOk(w') && SameBut(w, w', q)
    requires w.threads[i].stack <= p < w.threads[i].stack + STACK_PAGES && !StackPristine(w', p)
    ensures StackDirty(Dirtied(w.threads[i], page), p)
  {
    var t := w.threads[i];
    assert w.owner[p].StackPage?;
    if p != q {
      assert Content(w', p) == Content(w, p);
      assert !StackPristine(w, p);
    } else if page in w.pages {
      assert false;
    }
  }

  /** A store, which marks the page dirty, leaves the thread restorable. */
  lemma DirtiedRestorable(w: World, i: nat, page: nat, q: nat, w': World)
    requires Machine(w) && i < |w.threads| && w.threads[i].state == Running
    requires RegionsOk(w, w.threads[i].id, w.threads[i].stack, w.threads[i].writable) && Restorable(w, w.threads[i])
    requires UserWrite(w, i, page, q, w') && Compatible(w, w') && FramesOk(w') && SameBut(w, w', q)
    ensures Restorable(w', w'.threads[i])
  {
    var t := w.threads[i];
    var t' := Dirtied(t, page);
    forall p: nat | t.writable <= p < t.writable + |w.pages| && !PrivatePristine(w', t'.writable, p)
      ensures PrivateDirty(w', t', p)
    {
      DirtiedPrivatePage(w, i, page, q, w', p);
    }
    forall p: nat | t.stack <= p < t.stack + STACK_PAGES && !StackPristine(w', p)
      ensures StackDirty(t', p)
    {
      DirtiedStackPage(w, i, page, q, w', p);
    }
  }

  lemma RecycledPrivatePage(w: World, i: nat, ret: int, w': World, p: nat)
    requires Machine(w) && i < |w.threads| && Laid(w, w.threads[i]) && Restorable(w, w.threads[i])
    requires ExitStep(w, i, ret, w')
    requires w.threads[i].writable <= p < w.threads[i].writable + |w.pages|
    ensures PrivatePristine(w', w'.threads[i].writable, p)
  {
    hide SegmentsOk, GrantsOk, BuiltProtected;
    var t := w.threads[i];
    var c := w.ckpt + (p - t.writable);
    assert w.owner[p].PrivatePage? && w.owner[c].CheckpointPage?;
    assert Content(w', c) == RecycledContent(w, t, c) == Content(w, c);
    if !PrivatePristine(w, t.writable, p) { assert PrivateDirty(w, t, p); }
    assert Content(w', p) == RecycledContent(w, t, p) == Content(w, c);
  }

  lemma RecycledStackPage(w: World, i: nat, ret: int, w': World, p: nat)
    requires Machine(w) && i < |w.threads| && Laid(w, w.threads[i]) && Restorable(w, w.threads[i])
    requires ExitStep(w, i, ret, w')
    requires w.threads[i].stack <= p < w.threads[i].stack + STACK_PAGES
    ensures StackPristine(w', p)
  {
    var t := w.threads[i];
    assert w.owner[p].StackPage?;
    if !StackPristine(w, p) { assert StackDirty(t, p); }
    assert Content(w', p) == RecycledContent(w, t, p) == ZeroPage();
  }

  lemma RecycledRestorable(w: World, i: nat, ret: int, w': World)
    requires Machine(w) && i < |w.threads| && Laid(w, w.threads[i]) && Restorable(w, w.threads[i])
    requires ExitStep(w, i, ret, w')
    ensures Restorable(w', w'.threads[i])
  {
    var t := w.threads[i];
    forall p: nat | t.writable <= p < t.writable + |w.pages|
      ensures PrivatePristine(w', w'.threads[i].writable, p)
    {
      RecycledPrivatePage(w, i, ret, w', p);
    }
    forall p: nat | t.stack <= p < t.stack + STACK_PAGES
      ensures StackPristine(w', p)
    {
      RecycledStackPage(w, i, ret, w', p);
    }
  }

  lemma FreshRegionsOk(w: World, sc: Sc, stack: nat, writable: nat, w': World)
    requires FramesOk(w) && Machine(w) && CreateFresh(w, sc, stack, writable, w')
    ensures w'.owner.Keys == w'.pgroot.Keys
    ensures RegionsOk(w', w.lastId + 1, stack, writable)
  {
    hide SegmentsOk, CheckpointOk, Built, GrantsOk;
    forall p | p in w.owner
      ensures w'.owner[p] == FreshOwner(w, w.lastId + 1, stack, writable, p)
    {
    }
  }

  lemma FreshLaid(w: World, sc: Sc, stack: nat, writable: nat, w': World)
    requires Machine(w) && 0 <= w.lastId && CreateFresh(w, sc, stack, writable, w')
    requires Compatible(w, w') && Machine(w')
    ensures Laid(w', w'.threads[0])
  {
    hide FramesOk, SegmentsOk, CheckpointOk, Built, GrantsOk, RegionsOk, FreshRegions, Compatible;
    GrantsStable(w, w', sc.mem);
    FreshRegionsOk(w, sc, stack, writable, w');
  }

  lemma FreshPrivatePage(w: World, sc: Sc, stack: nat, writable: nat, w': World, p: nat)
    requires Machine(w) && CreateFresh(w, sc, stack, writable, w')
    requires writable <= p < writable + |w.pages|
    ensures PrivatePristine(w', writable, p)
  {
    var c := w.ckpt + (p - writable);
    assert p in w.owner && c in w.owner;
    assert Content(w', p) == FreshContent(w, stack, writable, p) == Content(w, c);
    assert Content(w', c) == FreshContent(w, stack, writable, c) == Content(w, c);
  }

  lemma FreshStackPage(w: World, sc: Sc, stack: nat, writable: nat, w': World, p: nat)
    requires Machine(w) && CreateFresh(w, sc, stack, writable, w')
    requires stack <= p < stack + STACK_PAGES
    ensures StackPristine(w', p)
  {
    assert p in w.owner;
    assert Content(w', p) == FreshContent(w, stack, writable, p);
  }

  lemma FreshRestorable(w: World, sc: Sc, stack: nat, writable: nat, w': World)
    requires Machine(w) && CreateFresh(w, sc, stack, writable, w')
    ensures Restorable(w', w'.threads[0])
  {
    forall p: nat | writable <= p < writable + |w.pages|
      ensures PrivatePristine(w', w'.threads[0].writable, p)
    {
      FreshPrivatePage(w, sc, stack, writable, w', p);
    }
    forall p: nat | stack <= p < stack + STACK_PAGES
      ensures StackPristine(w', p)
    {
      FreshStackPage(w, sc, stack, writable, w', p);
    }
  }

  // ---------- Memory and page tables stay in order ----------

  lemma LaidRetabled(w: World, t: Sthread, t': Sthread)
    requires Machine(w) && Laid(w, t)
    requires t' == t.(state := t'.state, ret := t'.ret, table := t'.table)
    requires t'.table.Keys == t.table.Keys
    requires forall p :: p in t.table ==> t'.table[p].Access() == t.table[p].Access()
    ensures Laid(w, t')
  {
    BuiltSameAccess(t.table, t'.table, w.pgroot, w.segs, w.pages, t.sc.mem, t.stack, t.writable);
  }

  /** Replacing thread i by t' keeps everything in order if t' is. */
  lemma ReplaceKeepsSound(w: World, w': World, i: nat, t': Sthread)
    requires Sound(w) && Compatible(w, w') && Machine(w') && w'.lastId == w.lastId
    requires i < |w.threads| && t'.id == w.threads[i].id && w'.threads == w.threads[i := t'] && Laid(w', t')
    ensures Sound(w')
  {
    hide Machine, Laid, Compatible;
    forall j | 0 <= j < |w.threads| ensures Laid(w', w'.threads[j]) {
      if j != i { LaidStable(w, w', w.threads[j]); }
    }
    assert LayoutOk(w') by { Compatibles(w, w'); }
  }

  lemma Compatibles(w: World, w': World)
    requires Compatible(w, w') && LayoutOk(w)
    ensures LayoutOk(w')
  {
  }

  lemma QuietKeepsSound(w: World, w': World)
    requires Sound(w) && Compatible(w, w') && Machine(w') && w'.threads == w.threads && w'.lastId == w.lastId
    ensures Sound(w')
  {
    hide Machine, Laid, Compatible;
    forall j | 0 <= j < |w.threads| ensures Laid(w', w'.threads[j]) {
      LaidStable(w, w', w.threads[j]);
    }
    assert LayoutOk(w') by { Compatibles(w, w'); }
  }

  lemma UserWriteKeepsSound(w: World, i: nat, page: nat, q: nat, w': World)
    requires Sound(w) && i < |w.threads| && UserWrite(w, i, page, q, w')
    ensures Sound(w')
  {
    hide FramesOk, SegmentsOk, CheckpointOk, GrantsOk, RegionsOk, Built, Compatible, SameBut;
    var t := w.threads[i];
    UserWriteFrame(w, i, page, q, w');
    MachineStable(w, w');
    LaidStable(w, w', t);
    LaidRetabled(w', t, Dirtied(t, page));
    ReplaceKeepsSound(w, w', i, Dirtied(t, page));
  }

  lemma ExitKeepsSound(w: World, i: nat, ret: int, w': World)
    requires Sound(w) && i < |w.threads| && ExitStep(w, i, ret, w')
    ensures Sound(w')
  {
    var t := w.threads[i];
    ExitCompatible(w, i, ret, w');
    MachineStable(w, w');
    LaidStable(w, w', t);
    LaidRetabled(w', t, w'.threads[i]);
    ReplaceKeepsSound(w, w', i, w'.threads[i]);
  }

  lemma CreateKeepsSound(w: World, sc: Sc, stack: nat, writable: nat, w': World)
    requires Sound(w) && CreateFresh(w, sc, stack, writable, w')
    ensures Sound(w')
  {
    hide FramesOk, SegmentsOk, CheckpointOk, GrantsOk, RegionsOk, Built, FreshRegions, Compatible;
    CreateCompatible(w, sc, stack, writable, w');
    MachineStable(w, w');
    FreshLaid(w, sc, stack, writable, w');
    forall j | 0 <= j < |w.threads| ensures Laid(w', w.threads[j]) {
      LaidStable(w, w', w.threads[j]);
    }
    assert forall j :: 0 < j < |w'.threads| ==> w'.threads[j] == w.threads[j - 1];
  }

  lemma RelabelLaid(w: World, w': World, t: Sthread, t': Sthread)
    requires Machine(w) && Compatible(w, w') && Machine(w') && Laid(w, t)
    requires t' == t.(state := t'.state, sc := t'.sc) && t'.sc.mem == t.sc.mem
    ensures Laid(w', t')
  {
    LaidStable(w, w', t);
  }

  /** A change of state or grants that keeps sc_mem keeps everything in order. */
  lemma RelabelKeepsSound(w: World, i: nat, t': Sthread)
    requires Sound(w) && i < |w.threads|
    requires t' == w.threads[i].(state := t'.state, sc := t'.sc) && t'.sc.mem == w.threads[i].sc.mem
    ensures Sound(w.(threads := w.threads[i := t']))
  {
    var w' := w.(threads := w.threads[i := t']);
    ThreadsOnlyCompatible(w, w');
    MachineStable(w, w');
    RelabelLaid(w, w', w.threads[i], t');
    ReplaceKeepsSound(w, w', i, t');
  }

  /** Every step, tracked or not, keeps memory, page tables and grants in order. */
  lemma StepKeepsSound(w: World, s: Step, w': World)
    requires Sound(w) && Next(w, s, w')
    ensures Sound(w')
  {
    hide Machine, LayoutOk, Laid, DistinctIds, StoreStep, FillStep, FillChanges, ExitStep, CreateFresh, TagNewStep,
      MasterStoreStep, UserWrite;
    match s
    case Store(id, va, value) =>
      if w' != w {
        var i := IndexOf(w.threads, id);
        var q := StoreIsUserWrite(w, i, va, value, w');
        UserWriteKeepsSound(w, i, va / PGSIZE, q, w');
      }
    case Fill(id, ptr, len, at, value) =>
      FillChange(w, IndexOf(w.threads, id), ptr, len, at, value, w');
      MachineStable(w, w');
      QuietKeepsSound(w, w');
    case MasterStore(va, value) =>
      MasterStoreFrame(w, va, value, w');
      MasterStoreQuiet(w, va, value, w');
      MachineStable(w, w');
      QuietKeepsSound(w, w');
    case Exit(id, ret) => ExitKeepsSound(w, IndexOf(w.threads, id), ret, w');
    case Create(sc, stack, writable) =>
      var i := ReusableIndex(w.threads, sc.mem);
      if i < |w.threads| {
        RelabelKeepsSound(w, i, w.threads[i].(sc := sc, state := Running));
      } else {
        CreateKeepsSound(w, sc, stack, writable, w');
      }
    case TagNew(base) =>
      TagNewCompatible(w, base, w');
      TagNewQuiet(w, base, w');
      MachineStable(w, w');
      QuietKeepsSound(w, w');
    case Join(id) =>
      if w' != w {
        var i := IndexOf(w.threads, id);
        RelabelKeepsSound(w, i, w.threads[i].(state := Dead));
      }
  }

  lemma MasterStoreQuiet(w: World, va: nat, value: byte, w': World)
    requires Machine(w) && MasterStoreStep(w, va, value, w')
    ensures w'.threads == w.threads && w'.lastId == w.lastId
  {
  }

  lemma TagNewQuiet(w: World, base: nat, w': World)
    requires Machine(w) && TagNewStep(w, base, w')
    ensures w'.threads == w.threads && w'.lastId == w.lastId
  {
  }

  // ---------- Threads stay restorable ----------

  /** Everything is untouched but memory of thread `id`, segments, tags and free pages. */
  ghost predicate OnlyTouches(w: World, w': World, id: int)
    requires FramesOk(w) && Compatible(w, w') && FramesOk(w')
  {
    forall p :: p in w.owner && Content(w', p) != Content(w, p) ==>
      match w.owner[p]
      case CheckpointPage(_) => false
      case PrivatePage(j, _) => j == id
      case StackPage(j, _) => j == id
      case _ => true
  }

  lemma OtherThread(w: World, w': World, id: int, t: Sthread)
    requires Machine(w) && Compatible(w, w') && Machine(w') && OnlyTouches(w, w', id)
    requires Laid(w, t) && Restorable(w, t) && t.id != id
    ensures Restorable(w', t)
  {
    assert SamePages(w, w', t.id);
    RestorableStable(w, w', t);
  }

  /** Touching only memory of thread i keeps the invariant if that thread ends up restorable. */
  lemma ReplaceKeepsInv(w: World, w': World, i: nat)
    requires Inv(w) && Sound(w') && Compatible(w, w') && i < |w.threads| == |w'.threads|
    requires forall j :: 0 <= j < |w.threads| && j != i ==> w'.threads[j] == w.threads[j]
    requires OnlyTouches(w, w', w.threads[i].id) && Restorable(w', w'.threads[i])
    ensures Inv(w')
  {
    hide Machine, Laid, Restorable, Compatible, OnlyTouches, LayoutOk;
    forall j | 0 <= j < |w.threads| ensures Restorable(w', w'.threads[j]) {
      if j != i { OtherThread(w, w', w.threads[i].id, w.threads[j]); }
    }
  }

  lemma UserWriteOnlyTouches(w: World, i: nat, page: nat, q: nat, w': World)
    requires FramesOk(w) && i < |w.threads| && UserWrite(w, i, page, q, w')
    requires Compatible(w, w') && FramesOk(w') && SameBut(w, w', q)
    ensures OnlyTouches(w, w', w.threads[i].id)
  {
  }

  lemma UserWriteKeepsInv(w: World, i: nat, page: nat, q: nat, w': World)
    requires Inv(w) && i < |w.threads| && w.threads[i].state == Running && UserWrite(w, i, page, q, w')
    ensures Inv(w')
  {
    hide FramesOk, SegmentsOk, CheckpointOk, GrantsOk, RegionsOk, Built, Restorable, Compatible, SameBut, OnlyTouches;
    UserWriteKeepsSound(w, i, page, q, w');
    UserWriteFrame(w, i, page, q, w');
    UserWriteOnlyTouches(w, i, page, q, w');
    DirtiedRestorable(w, i, page, q, w');
    ReplaceKeepsInv(w, w', i);
  }

  lemma ExitOnlyTouches(w: World, i: nat, ret: int, w': World)
    requires Machine(w) && i < |w.threads| && Laid(w, w.threads[i]) && ExitStep(w, i, ret, w')
    ensures Compatible(w, w') && FramesOk(w') && OnlyTouches(w, w', w.threads[i].id)
  {
    assert Compatible(w, w');
    FramesStable(w, w');
    forall p | p in w.owner &&
               !((w.owner[p].PrivatePage? || w.owner[p].StackPage?) && w.owner[p].id == w.threads[i].id)
      ensures Content(w', p) == Content(w, p)
    {
      ExitFrame(w, i, ret, w', p);
    }
  }

  lemma ExitKeepsInv(w: World, i: nat, ret: int, w': World)
    requires Inv(w) && i < |w.threads| && ExitStep(w, i, ret, w')
    ensures Inv(w')
  {
    hide FramesOk, SegmentsOk, CheckpointOk, GrantsOk, RegionsOk, Built, Restorable, Compatible, OnlyTouches;
    ExitKeepsSound(w, i, ret, w');
    ExitOnlyTouches(w, i, ret, w');
    RecycledRestorable(w, i, ret, w');
    ReplaceKeepsInv(w, w', i);
  }

  /** A step that touches no thread's memory keeps every thread restorable. */
  lemma QuietRestorable(w: World, w': World)
    requires Inv(w) && Compatible(w, w') && Machine(w') && OnlyTouches(w, w', 0)
    ensures forall j :: 0 <= j < |w.threads| ==> Restorable(w', w.threads[j])
  {
    hide Machine, Restorable, Compatible, OnlyTouches;
    forall j | 0 <= j < |w.threads| ensures Restorable(w', w.threads[j]) {
      OtherThread(w, w', 0, w.threads[j]);
    }
  }

  lemma CreateOnlyTouches(w: World, sc: Sc, stack: nat, writable: nat, w': World)
    requires Machine(w) && CreateFresh(w, sc, stack, writable, w') && Compatible(w, w') && FramesOk(w')
    ensures OnlyTouches(w, w', 0)
  {
    hide SegmentsOk, CheckpointOk, CreateFresh;
    forall p | p in w.owner && w.owner[p] != Free ensures Content(w', p) == Content(w, p) {
      CreateFrame(w, sc, stack, writable, w', p);
    }
  }

  lemma CreateKeepsInv(w: World, sc: Sc, stack: nat, writable: nat, w': World)
    requires Inv(w) && CreateFresh(w, sc, stack, writable, w')
    ensures Inv(w')
  {
    CreateKeepsSound(w, sc, stack, writable, w');
    CreateCompatible(w, sc, stack, writable, w');
    CreateOnlyTouches(w, sc, stack, writable, w');
    FreshRestorable(w, sc, stack, writable, w');
    hide Machine, Laid, Restorable, Compatible, OnlyTouches, GrantsOk, Built, FreshRegions;
    QuietRestorable(w, w');
    assert forall j :: 0 < j < |w'.threads| ==> w'.threads[j] == w.threads[j - 1];
  }

  lemma TagNewKeepsInv(w: World, base: nat, w': World)
    requires Inv(w) && TagNewStep(w, base, w') && Sound(w')
    ensures Inv(w')
  {
    forall p | p in w.owner && w.owner[p] != Free
      ensures Content(w', p) == Content(w, p)
    {
      TagNewFrame(w, base, w', p);
    }
    TagNewCompatible(w, base, w');
    QuietRestorable(w, w');
  }

  lemma MasterStoreKeepsInv(w: World, va: nat, value: byte, w': World)
    requires Inv(w) && MasterStoreStep(w, va, value, w') && Sound(w')
    ensures Inv(w')
  {
    MasterStoreFrame(w, va, value, w');
    QuietRestorable(w, w');
  }

  lemma RelabelRestorable(w: World, w': World, t: Sthread, t': Sthread)
    requires w' == w.(threads := w'.threads) && Restorable(w, t) && t.state != Running
    requires t' == t.(state := t'.state, sc := t'.sc)
    ensures Restorable(w', t')
  {
    assert forall p :: PrivatePristine(w', t'.writable, p) == PrivatePristine(w, t.writable, p);
    assert forall p :: StackPristine(w', p) == StackPristine(w, p);
  }

  lemma RelabelKeepsInv(w: World, i: nat, t': Sthread)
    requires Inv(w) && i < |w.threads|
    requires t' == w.threads[i].(state := t'.state, sc := t'.sc) && t'.sc.mem == w.threads[i].sc.mem
    requires w.threads[i].state != Running
    ensures Inv(w.(threads := w.threads[i := t']))
  {
    var w' := w.(threads := w.threads[i := t']);
    RelabelKeepsSound(w, i, t');
    ThreadsOnlyCompatible(w, w');
    assert OnlyTouches(w, w', t'.id);
    RelabelRestorable(w, w', w.threads[i], t');
    ReplaceKeepsInv(w, w', i);
  }

  // ---------- Fills ----------

  /** A page that only q's change can have made impure. */
  lemma PrivateAfterChange(w: World, w': World, t: Sthread, q: nat, p: nat)
    requires Machine(w) && Laid(w, t) && Restorable(w, t) && w' == w.(mem := w'.mem)
    requires Compatible(w, w') && FramesOk(w') && q in w.pgroot && SameBut(w, w', q) && Content(w', q) != Content(w, q)
    requires Within(p, t.writable, |w.pages|)
    ensures p == q || w.ckpt + (p - t.writable) == q ==>
              (PrivatePristine(w', t.writable, p) ==> t.state == Running && PrivateDirty(w, t, p))
    ensures p != q && w.ckpt + (p - t.writable) != q ==>
              PrivatePristine(w', t.writable, p) == PrivatePristine(w, t.writable, p)
  {
    hide SegmentsOk, GrantsOk, Built;
    var c := w.ckpt + (p - t.writable);
    assert w.owner[p].PrivatePage? && w.owner[c].CheckpointPage?;
    if p != q { assert Content(w', p) == Content(w, p); }
    if c != q { assert Content(w', c) == Content(w, c); }
    if p == q || c == q {
      assert PrivatePristine(w, t.writable, p) ==> !PrivatePristine(w', t.writable, p);
    }
  }

  lemma StackAfterChange(w: World, w': World, t: Sthread, q: nat, p: nat)
    requires Machine(w) && Laid(w, t) && Restorable(w, t) && w' == w.(mem := w'.mem)
    requires Compatible(w, w') && FramesOk(w') && q in w.pgroot && SameBut(w, w', q) && Content(w', q) != Content(w, q)
    requires Within(p, t.stack, STACK_PAGES)
    ensures p == q ==> (StackPristine(w', p) ==> t.state == Running && StackDirty(t, p))
    ensures p != q ==> StackPristine(w', p) == StackPristine(w, p)
  {
    hide SegmentsOk, CheckpointOk, GrantsOk, Built;
    assert w.owner[p].StackPage?;
    if p != q { assert Content(w', p) == Content(w, p); }
    assert p == q && StackPristine(w, p) ==> !StackPristine(w', p);
  }

  /** A thread stays restorable after a change of one page exactly when it is covered there. */
  lemma ChangeKeepsRestorableIff(w: World, w': World, t: Sthread, q: nat)
    requires Machine(w) && Laid(w, t) && Restorable(w, t) && w' == w.(mem := w'.mem)
    requires Compatible(w, w') && FramesOk(w') && q in w.pgroot && SameBut(w, w', q) && Content(w', q) != Content(w, q)
    ensures Restorable(w', t) <==> !Uncovered(w, t, q)
  {
    hide Machine, Laid, Compatible, FramesOk, SameBut, PrivatePristine, StackPristine, StackDirty;
    assert forall p :: PrivateDirty(w', t, p) == PrivateDirty(w, t, p);
    hide PrivateDirty;
    forall p: nat | Within(p, t.writable, |w.pages|)
      ensures p == q || w.ckpt + (p - t.writable) == q ==>
                (PrivatePristine(w', t.writable, p) ==> t.state == Running && PrivateDirty(w, t, p))
      ensures p != q && w.ckpt + (p - t.writable) != q ==>
                PrivatePristine(w', t.writable, p) == PrivatePristine(w, t.writable, p)
    {
      PrivateAfterChange(w, w', t, q, p);
    }
    forall p: nat | Within(p, t.stack, STACK_PAGES)
      ensures p == q ==> (StackPristine(w', p) ==> t.state == Running && StackDirty(t, p))
      ensures p != q ==> StackPristine(w', p) == StackPristine(w, p)
    {
      StackAfterChange(w, w', t, q, p);
    }
    if Uncovered(w, t, q) && Within(q, w.ckpt, |w.pages|) {
      assert Within(t.writable + (q - w.ckpt), t.writable, |w.pages|);
    }
  }

  /** A fill that changes no page of the master's table leaves every thread as it is. */
  lemma NothingChanges(w: World, w': World)
    requires Inv(w) && Sound(w') && Compatible(w, w') && w' == w.(mem := w'.mem)
    requires forall p {:trigger Content(w', p)} :: p in w.pgroot ==> Content(w', p) == Content(w, p)
    ensures Inv(w')
  {
    assert OnlyTouches(w, w', 0);
    QuietRestorable(w, w');
  }

  /** A fill keeps the invariant exactly when recycle will notice it, wherever it goes. */
  lemma FillKeepsInvIff(w: World, i: nat, ptr: nat, len: nat, at: nat, value: byte, w': World)
    requires Inv(w) && i < |w.threads| && FillStep(w, i, ptr, len, at, value, w')
    ensures Sound(w') && w'.threads == w.threads
    ensures Inv(w') <==> FillTracked(w, i, ptr, at, value)
  {
    hide LayoutOk, Laid, DistinctIds, Restorable, FillStep, Uncovered, SegmentsOk, CheckpointOk;
    FillChange(w, i, ptr, len, at, value, w');
    MachineStable(w, w');
    QuietKeepsSound(w, w');
    if q :| FillChanges(w, i, ptr, at, value, q) {
      forall p | FillChanges(w, i, ptr, at, value, p) ensures p == q { assert Apart(p, q) || p == q; }
      assert Content(w', q) != Content(w, q);
      hide FillChanges;
      assert SameBut(w, w', q);
      forall j | 0 <= j < |w.threads| ensures Restorable(w', w.threads[j]) <==> !Uncovered(w, w.threads[j], q) {
        ChangeKeepsRestorableIff(w, w', w.threads[j], q);
      }
    } else {
      NothingChanges(w, w');
    }
  }

  /** In one region this is the plain condition: the page is dirty already, or is a tag's, or does not change. */
  ghost predicate FillPlain(w: World, i: nat, ptr: nat, at: nat, value: byte)
    requires i < |w.threads|
  {
    var t := w.threads[i].table;
    var page := (ptr + at) / PGSIZE;
    page in t ==>
      || t[page].dirty
      || (page in w.owner && w.owner[page].TagPage?)
      || (t[page].frame in w.mem && w.mem[t[page].frame][(ptr + at) % PGSIZE] == value)
  }

  lemma RegionFillTracked(w: World, i: nat, ptr: nat, len: nat, at: nat, value: byte)
    requires Sound(w) && i < |w.threads| && FillInRegion(w, i, ptr, at) && w.threads[i].state == Running
    requires MemPerm(w.threads[i].table, ptr, len) && at < len
    ensures FillTracked(w, i, ptr, at, value) <==> FillPlain(w, i, ptr, at, value)
  {
    hide Machine, LayoutOk, Laid, FillInRegion, MemPerm, FillChanges, OwnOrGranted, Leads, Uncovered;
    var t := w.threads[i];
    var page := (ptr + at) / PGSIZE;
    var q := RegionFillChanges(w, i, ptr, len, at, value);
    TagLeads(w, t, page, q);
    forall j | 0 <= j < |w.threads|
      ensures Uncovered(w, w.threads[j], q) <==> j == i && !w.owner[q].TagPage? && !t.table[page].dirty
    {
      if j == i { OwnUncovered(w, t, page, q); } else { OtherCovered(w, t, w.threads[j], q); }
    }
  }

  lemma OwnUncovered(w: World, t: Sthread, page: nat, q: nat)
    requires Machine(w) && Laid(w, t) && t.state == Running && page in t.table && q in w.pgroot && Leads(w, t, page, q)
    requires Within(q, t.writable, |w.pages|) || Within(q, t.stack, STACK_PAGES) || w.owner[q].TagPage?
    ensures q in w.owner && (Uncovered(w, t, q) <==> !w.owner[q].TagPage? && !t.table[page].dirty)
  {
    hide SegmentsOk, GrantsOk, Built;
    if Within(q, t.writable, |w.pages|) { assert w.owner[q].PrivatePage?; }
    if Within(q, t.stack, STACK_PAGES) { assert w.owner[q].StackPage?; }
  }

  lemma OtherCovered(w: World, t: Sthread, other: Sthread, q: nat)
    requires Machine(w) && Laid(w, other) && other.id != t.id && q in w.pgroot && OwnOrGranted(w, t, q)
    ensures !Uncovered(w, other, q)
  {
    hide SegmentsOk, GrantsOk, Built;
  }

  lemma TagLeads(w: World, t: Sthread, page: nat, q: nat)
    requires Machine(w) && Laid(w, t) && page in t.table && q in w.pgroot && Leads(w, t, page, q)
    ensures page in w.owner && q in w.owner && (w.owner[page].TagPage? <==> w.owner[q].TagPage?)
  {
    var _ := SegmentOf(w.segs, page);
  }

  // ---------- What an exit leaves behind ----------

  /** The private copy equals the checkpoint and the stack is zero. */
  ghost predicate Pristine(w: World, t: Sthread) {
    && (forall p :: t.writable <= p < t.writable + |w.pages| ==> PrivatePristine(w, t.writable, p))
    && (forall p :: t.stack <= p < t.stack + STACK_PAGES ==> StackPristine(w, p))
  }

  /** Pages recycle will not restore: clean, but not pristine. */
  ghost predicate LostPrivate(w: World, t: Sthread, p: nat) {
    Within(p, t.writable, |w.pages|) && !PrivatePristine(w, t.writable, p) && !PrivateDirty(w, t, p)
  }

  ghost predicate LostStack(w: World, t: Sthread, p: nat) {
    Within(p, t.stack, STACK_PAGES) && !StackPristine(w, p) && !StackDirty(t, p)
  }

  lemma LostPage(w: World, t: Sthread) returns (p: nat)
    requires t.state == Running && !Restorable(w, t)
    ensures LostPrivate(w, t, p) || LostStack(w, t, p)
  {
    if q: nat :|
      && t.writable <= q < t.writable + |w.pages|
      && !PrivatePristine(w, t.writable, q) && !PrivateDirty(w, t, q)
    {
      p := q;
    } else {
      p :| t.stack <= p < t.stack + STACK_PAGES && !StackPristine(w, p) && !StackDirty(t, p);
    }
  }

  /** Such a page survives the exit as it is. */
  lemma CleanPageSurvives(w: World, i: nat, ret: int, w': World, p: nat)
    requires Machine(w) && i < |w.threads| && Laid(w, w.threads[i]) && ExitStep(w, i, ret, w')
    ensures LostPrivate(w, w.threads[i], p) ==> !PrivatePristine(w', w.threads[i].writable, p)
    ensures LostStack(w, w.threads[i], p) ==> !StackPristine(w', p)
  {
    hide SegmentsOk, GrantsOk, BuiltProtected;
    var t := w.threads[i];
    if Within(p, t.writable, |w.pages|) {
      var c := w.ckpt + (p - t.writable);
      assert w.owner[p].PrivatePage? && w.owner[c].CheckpointPage?;
      assert Content(w', c) == RecycledContent(w, t, c) == Content(w, c);
      assert Content(w', p) == RecycledContent(w, t, p);
    }
    if Within(p, t.stack, STACK_PAGES) {
      assert w.owner[p].StackPage?;
      assert Content(w', p) == RecycledContent(w, t, p);
    }
  }

  /** recycle leaves the thread pristine exactly when every page that was not pristine was dirty. */
  lemma ExitPristineIff(w: World, i: nat, ret: int, w': World)
    requires Machine(w) && i < |w.threads| && Laid(w, w.threads[i]) && ExitStep(w, i, ret, w')
    ensures Pristine(w', w'.threads[i]) <==> Restorable(w, w.threads[i])
  {
    var t := w.threads[i];
    var t' := w'.threads[i];
    assert t.state == Running && t'.writable == t.writable && t'.stack == t.stack && w'.pages == w.pages;
    hide Machine, Laid, ExitStep, PrivatePristine, PrivateDirty, StackPristine, StackDirty;
    if Restorable(w, t) {
      forall p: nat | t.writable <= p < t.writable + |w.pages| ensures PrivatePristine(w', t.writable, p) {
        RecycledPrivatePage(w, i, ret, w', p);
      }
      forall p: nat | t.stack <= p < t.stack + STACK_PAGES ensures StackPristine(w', p) {
        RecycledStackPage(w, i, ret, w', p);
      }
    } else {
      var p := LostPage(w, t);
      CleanPageSurvives(w, i, ret, w', p);
    }
  }

  /** The failure: after a fill in one region that recycle will not notice, the exit leaves the kernel's byte in the
      thread's memory. */
  lemma UntrackedFillSurvivesExit(w: World, i: nat, ptr: nat, len: nat, at: nat, value: byte, w': World,
                                  ret: int, w'': World)
    requires Inv(w) && i < |w.threads| && FillStep(w, i, ptr, len, at, value, w') && FillInRegion(w, i, ptr, at)
    requires Sound(w') && i < |w'.threads| && ExitStep(w', i, ret, w'')
    ensures Pristine(w'', w''.threads[i]) <==> FillPlain(w, i, ptr, at, value)
  {
    assert w.threads[i].state == Running && MemPerm(w.threads[i].table, ptr, len) && at < len;
    hide Machine, LayoutOk, Laid, DistinctIds, Restorable, FillInRegion, FillPlain, FillTracked, FillStep, ExitStep,
      Pristine, MemPerm;
    FillKeepsInvIff(w, i, ptr, len, at, value, w');
    RegionFillTracked(w, i, ptr, len, at, value);
    ExitPristineIff(w', i, ret, w'');
    if !Inv(w') { RegionFillOthers(w, i, ptr, len, at, value, w'); }
  }

  /** A fill in one region leaves all other threads restorable. */
  lemma RegionFillOthers(w: World, i: nat, ptr: nat, len: nat, at: nat, value: byte, w': World)
    requires Inv(w) && i < |w.threads| && FillStep(w, i, ptr, len, at, value, w') && FillInRegion(w, i, ptr, at)
    requires Sound(w') && w'.threads == w.threads
    ensures forall j :: 0 <= j < |w.threads| && j != i ==> Restorable(w', w.threads[j])
  {
    hide LayoutOk, Laid, Restorable, SegmentsOk, CheckpointOk, FillChanges, OwnOrGranted, MemPerm;
    FillChange(w, i, ptr, len, at, value, w');
    RegionFillStays(w, i, ptr, len, at, value);
    assert OnlyTouches(w, w', w.threads[i].id) by { StayingOnlyTouches(w, i, ptr, at, value, w'); }
    hide FillStep, Compatible, FramesOk, OnlyTouches;
    forall j | 0 <= j < |w.threads| && j != i ensures Restorable(w', w.threads[j]) {
      OtherThread(w, w', w.threads[i].id, w.threads[j]);
    }
  }

  lemma StayingOnlyTouches(w: World, i: nat, ptr: nat, at: nat, value: byte, w': World)
    requires FramesOk(w) && i < |w.threads| && Compatible(w, w') && FramesOk(w') && FillStays(w, i, ptr, at, value)
    requires forall p {:trigger Content(w', p)} :: p in w.pgroot ==>
               (Content(w', p) != Content(w, p) <==> FillChanges(w, i, ptr, at, value, p))
    ensures OnlyTouches(w, w', w.threads[i].id)
  {
    hide FillChanges, Compatible;
  }

  // ---------- Steps ----------

  /** Every tracked step keeps the invariant. */
  lemma StepKeepsInv(w: World, s: Step, w': World)
    requires Inv(w) && Next(w, s, w') && Tracked(w, s)
    ensures Inv(w')
  {
    StepKeepsSound(w, s, w');
    hide Machine, LayoutOk, Laid, DistinctIds, Restorable, StoreStep, FillStep, FillTracked, ExitStep,
      CreateFresh, TagNewStep, MasterStoreStep;
    match s
    case Store(id, va, value) =>
      var i := IndexOf(w.threads, id);
      StoreKeepsInv(w, i, va, value, w');
    case Fill(id, ptr, len, at, value) => FillKeepsInvIff(w, IndexOf(w.threads, id), ptr, len, at, value, w');
    case MasterStore(va, value) => MasterStoreKeepsInv(w, va, value, w');
    case Exit(id, ret) => ExitKeepsInv(w, IndexOf(w.threads, id), ret, w');
    case Create(sc, stack, writable) =>
      var i := ReusableIndex(w.threads, sc.mem);
      if i < |w.threads| {
        RelabelKeepsInv(w, i, w.threads[i].(sc := sc, state := Running));
      } else {
        CreateKeepsInv(w, sc, stack, writable, w');
      }
    case TagNew(base) => TagNewKeepsInv(w, base, w');
    case Join(id) =>
      if w' != w {
        var i := IndexOf(w.threads, id);
        RelabelKeepsInv(w, i, w.threads[i].(state := Dead));
      }
  }

  lemma StoreKeepsInv(w: World, i: nat, va: nat, value: byte, w': World)
    requires Inv(w) && i < |w.threads| && StoreStep(w, i, va, value, w')
    ensures Inv(w')
  {
    if w' != w {
      var q := StoreIsUserWrite(w, i, va, value, w');
      UserWriteKeepsInv(w, i, va / PGSIZE, q, w');
    }
  }
}
