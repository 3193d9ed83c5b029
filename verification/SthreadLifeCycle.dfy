/** The life cycle of an sthread over whole runs. */
module SthreadLifeCycle {
  import opened Common
  import opened PageTables
  import opened SthreadModel
  import opened SthreadSteps
  import opened SthreadInvariant
  import opened SthreadRuns

  predicate Known(w: World, id: int) { IndexOf(w.threads, id) < |w.threads| }

  function Find(w: World, id: int): (t: Sthread)
    requires Known(w, id)
    ensures t.id == id
  {
    w.threads[IndexOf(w.threads, id)]
  }

  /** What step s may do to thread t: Running to Zombie by its own exit, Zombie to Dead by a join on it,
      Dead to Running by a create with the same sc_mem.  Nothing else touches its state or its return value, and
      its stack and private copy stay where they are. */
  ghost predicate Moves(t: Sthread, s: Step, t': Sthread) {
    && t'.id == t.id && t'.stack == t.stack && t'.writable == t.writable
    && if s.Exit? && s.id == t.id then t.state == Running && t'.state == Zombie && t'.ret == s.ret
       else if s.Join? && s.id == t.id && t.state == Zombie then t'.state == Dead && t'.ret == t.ret
       else
         && t'.ret == t.ret
         && (t'.state == t.state ||
             (t.state == Dead && t'.state == Running && s.Create? && s.sc.mem == t.sc.mem && t'.sc == s.sc))
  }

  /** A list with distinct ids has one place for each. */
  lemma IndexOfUnique(threads: seq<Sthread>, i: nat)
    requires DistinctIds(threads) && i < |threads|
    ensures IndexOf(threads, threads[i].id) == i
  {
    var r := IndexOf(threads, threads[i].id);
    assert r <= i;
  }

  lemma UpdatedIndex(threads: seq<Sthread>, i: nat, t: Sthread, id: int)
    requires DistinctIds(threads) && i < |threads| && t.id == threads[i].id
    ensures DistinctIds(threads[i := t])
    ensures IndexOf(threads[i := t], id) == IndexOf(threads, id)
  {
    var r := IndexOf(threads, id);
    if r < |threads| {
      assert threads[i := t][r].id == id;
      IndexOfUnique(threads[i := t], r);
    } else {
      assert forall j :: 0 <= j < |threads| ==> threads[i := t][j].id == threads[j].id != id;
    }
  }

  lemma CreateMoves(w: World, sc: Sc, stack: nat, writable: nat, w': World, id: int)
    requires Sound(w) && Next(w, Create(sc, stack, writable), w') && Known(w, id)
    ensures Known(w', id) && Moves(Find(w, id), Create(sc, stack, writable), Find(w', id))
  {
    hide Machine, LayoutOk, CreateFresh, GrantsOk, RegionsOk, Built;
    var i := ReusableIndex(w.threads, sc.mem);
    if i < |w.threads| {
      UpdatedIndex(w.threads, i, w.threads[i].(sc := sc, state := Running), id);
    } else {
      FreshPrepends(w, sc, stack, writable, w');
      assert Laid(w, w.threads[IndexOf(w.threads, id)]);
      assert w'.threads[1..] == w.threads;
    }
  }

  lemma JoinMoves(w: World, i: int, w': World, id: int)
    requires DistinctIds(w.threads) && JoinStep(w, i, w') && Known(w, id)
    ensures Known(w', id) && Moves(Find(w, id), Join(i), Find(w', id))
  {
    if w' != w {
      var j := IndexOf(w.threads, i);
      UpdatedIndex(w.threads, j, w.threads[j].(state := Dead), id);
    }
  }

  lemma QuietMoves(w: World, s: Step, w': World, id: int)
    requires w'.threads == w.threads && Known(w, id) && !s.Exit? && !s.Join?
    ensures Known(w', id) && Moves(Find(w, id), s, Find(w', id))
  {
  }

  /** Every step moves every thread along the life cycle; ids stay in the list. */
  lemma StepLifeCycle(w: World, s: Step, w': World, id: int)
    requires Sound(w) && Next(w, s, w') && Known(w, id)
    ensures Known(w', id) && Moves(Find(w, id), s, Find(w', id))
  {
    hide Machine, LayoutOk, Laid, DistinctIds, StoreStep, FillStep, MasterStoreStep,
      TagNewStep, ExitStep, CreateFresh, CreateReuse, JoinStep, Moves, Known;
    match s
    case Create(sc, stack, writable) => CreateMoves(w, sc, stack, writable, w', id);
    case Exit(i, ret) => ExitReplaces(w, IndexOf(w.threads, i), ret, w', id);
    case Join(i) => JoinMoves(w, i, w', id);
    case Store(i, va, value) => StoreReplaces(w, IndexOf(w.threads, i), va, value, w', id);
    case Fill(i, ptr, len, at, value) =>
      FillKeepsThreads(w, IndexOf(w.threads, i), ptr, len, at, value, w');
      QuietMoves(w, s, w', id);
    case MasterStore(va, value) =>
      MasterKeepsThreads(w, va, value, w');
      QuietMoves(w, s, w', id);
    case TagNew(base) =>
      TagKeepsThreads(w, base, w');
      QuietMoves(w, s, w', id);
  }

  lemma FreshPrepends(w: World, sc: Sc, stack: nat, writable: nat, w': World)
    requires Machine(w) && CreateFresh(w, sc, stack, writable, w')
    ensures |w'.threads| == |w.threads| + 1 && w'.threads == [w'.threads[0]] + w.threads
    ensures w'.threads[0].id == w.lastId + 1 && w'.threads[0].state == Running
  {
  }

  lemma ExitReplaces(w: World, i: nat, ret: int, w': World, id: int)
    requires Machine(w) && DistinctIds(w.threads) && i < |w.threads| && Laid(w, w.threads[i])
    requires ExitStep(w, i, ret, w') && Known(w, id)
    ensures Known(w', id) && Moves(Find(w, id), Exit(w.threads[i].id, ret), Find(w', id))
  {
    UpdatedIndex(w.threads, i, w'.threads[i], id);
    IndexOfUnique(w.threads, i);
  }

  lemma StoreReplaces(w: World, i: nat, va: nat, value: byte, w': World, id: int)
    requires DistinctIds(w.threads) && i < |w.threads| && StoreStep(w, i, va, value, w') && Known(w, id)
    ensures Known(w', id) && Moves(Find(w, id), Store(w.threads[i].id, va, value), Find(w', id))
  {
    if w' != w {
      UpdatedIndex(w.threads, i, w'.threads[i], id);
    }
  }

  lemma FillKeepsThreads(w: World, i: nat, ptr: nat, len: nat, at: nat, value: byte, w': World)
    requires i < |w.threads| && FillStep(w, i, ptr, len, at, value, w')
    ensures w'.threads == w.threads
  {
  }

  lemma MasterKeepsThreads(w: World, va: nat, value: byte, w': World)
    requires Machine(w) && MasterStoreStep(w, va, value, w')
    ensures w'.threads == w.threads
  {
  }

  lemma TagKeepsThreads(w: World, base: nat, w': World)
    requires Machine(w) && TagNewStep(w, base, w')
    ensures w'.threads == w.threads
  {
  }

  lemma {:induction false} RunKnown(ws: seq<World>, ss: seq<Step>, m: nat, n: nat, id: int)
    requires IsRun(ws, ss) && m <= n < |ws| && Known(ws[m], id)
    ensures Known(ws[n], id)
  {
    hide Next, Sound, Known;
    if m < n {
      RunKnown(ws, ss, m, n - 1, id);
      RunStep(ws, ss, n - 1);
      StepLifeCycle(ws[n - 1], ss[n - 1], ws[n], id);
    }
  }

  /** In every run, whenever a thread that was running at m is a zombie at n, it exited at some step e in
      between with exactly the value a join at n returns, and it has been a zombie ever since. */
  lemma {:induction false} JoinReturnsExitValue(ws: seq<World>, ss: seq<Step>, m: nat, n: nat, id: int) returns (e: nat)
    requires IsRun(ws, ss) && m <= n < |ws| && Known(ws[m], id) && Find(ws[m], id).state == Running
    requires Known(ws[n], id) && Find(ws[n], id).state == Zombie
    ensures m <= e < n && ss[e] == Exit(id, Find(ws[n], id).ret)
    ensures forall j :: e < j <= n ==>
              Known(ws[j], id) && Find(ws[j], id).state == Zombie && Find(ws[j], id).ret == Find(ws[n], id).ret
  {
    hide Next, Sound;
    RunKnown(ws, ss, m, n - 1, id);
    RunStep(ws, ss, n - 1);
    StepLifeCycle(ws[n - 1], ss[n - 1], ws[n], id);
    if ss[n - 1].Exit? && ss[n - 1].id == id {
      e := n - 1;
    } else {
      assert Find(ws[n - 1], id).state == Zombie;
      e := JoinReturnsExitValue(ws, ss, m, n - 1, id);
    }
  }

  // ---------- Waiting in join ----------

  /** While the master waits in sthread_join only sthreads move. */
  ghost predicate SthreadsOnly(ss: seq<Step>, m: nat, n: nat)
    requires m <= n <= |ss|
  {
    forall i :: m <= i < n ==> ss[i].Store? || ss[i].Fill? || ss[i].Exit?
  }

  ghost predicate ExitsBetween(ss: seq<Step>, m: nat, n: nat, id: int)
    requires m <= n <= |ss|
  {
    exists e :: m <= e < n && ss[e].Exit? && ss[e].id == id
  }

  /** A join that starts to wait at m finds a zombie at n exactly when the thread was one already or was running and
      has exited since; in particular a join on a dead thread never returns. */
  lemma {:induction false} JoinCompletesIff(ws: seq<World>, ss: seq<Step>, m: nat, n: nat, id: int)
    requires IsRun(ws, ss) && m <= n < |ws| && SthreadsOnly(ss, m, n) && Known(ws[m], id)
    ensures Known(ws[n], id)
    ensures Find(ws[n], id).state == Zombie <==>
            || Find(ws[m], id).state == Zombie
            || (Find(ws[m], id).state == Running && ExitsBetween(ss, m, n, id))
    ensures Find(ws[m], id).state == Dead ==> Find(ws[n], id).state == Dead
    ensures Find(ws[m], id).state == Running && Find(ws[n], id).state != Zombie ==> Find(ws[n], id).state == Running
  {
    hide Next, Sound, Known;
    if m < n {
      JoinCompletesIff(ws, ss, m, n - 1, id);
      RunStep(ws, ss, n - 1);
      StepLifeCycle(ws[n - 1], ss[n - 1], ws[n], id);
      assert ExitsBetween(ss, m, n, id) <==> ExitsBetween(ss, m, n - 1, id) || (ss[n - 1].Exit? && ss[n - 1].id == id);
    }
  }

  // ---------- When a reused thread starts clean ----------

  /** Steps of a thread that is not running do not happen. */
  lemma NotActing(w: World, s: Step, w': World, id: int)
    requires Sound(w) && Next(w, s, w') && Known(w, id) && Find(w, id).state != Running
    ensures !(s.Store? && s.id == id) && !(s.Fill? && s.id == id) && !(s.Exit? && s.id == id)
  {
  }

  lemma {:induction false} RegionsStay(ws: seq<World>, ss: seq<Step>, m: nat, n: nat, id: int)
    requires IsRun(ws, ss) && m <= n < |ws| && Known(ws[m], id)
    ensures Known(ws[n], id)
    ensures Find(ws[n], id).stack == Find(ws[m], id).stack && Find(ws[n], id).writable == Find(ws[m], id).writable
  {
    hide Next, Sound, Known;
    if m < n {
      RegionsStay(ws, ss, m, n - 1, id);
      RunStep(ws, ss, n - 1);
      StepLifeCycle(ws[n - 1], ss[n - 1], ws[n], id);
    }
  }

  /** While fills stay, memory of a thread that does not run keeps its contents. */
  lemma IdlePages(ws: seq<World>, ss: seq<Step>, m: nat, n: nat, id: int, p: nat)
    requires IsRun(ws, ss) && m <= n < |ws| && p in ws[m].owner && FillsStay(ws, ss, m, n)
    requires forall j :: m <= j <= n ==> Known(ws[j], id) && Find(ws[j], id).state != Running
    requires ws[m].owner[p].CheckpointPage? ||
             ((ws[m].owner[p].PrivatePage? || ws[m].owner[p].StackPage?) && ws[m].owner[p].id == id)
    ensures Sound(ws[m]) && Sound(ws[n]) && p in ws[n].pgroot && Content(ws[n], p) == Content(ws[m], p)
  {
    hide Next, Sound, Known;
    forall i | m <= i < n
      ensures !(ss[i].Store? && ss[i].id == id) && !(ss[i].Fill? && ss[i].id == id) && !(ss[i].Exit? && ss[i].id == id)
    {
      RunStep(ws, ss, i);
      NotActing(ws[i], ss[i], ws[i + 1], id);
    }
    if ws[m].owner[p].CheckpointPage? {
      CheckpointIsolated(ws, ss, m, n, p);
    } else {
      PrivateMemoryIsolated(ws, ss, m, n, id, p);
    }
  }

  lemma ThreadPages(w: World, t: Sthread, p: nat)
    requires Machine(w) && Laid(w, t)
    ensures Within(p, t.writable, |w.pages|) ==>
              var c := w.ckpt + (p - t.writable);
              && p in w.owner && w.owner[p].PrivatePage? && w.owner[p].id == t.id
              && c in w.owner && w.owner[c].CheckpointPage?
    ensures Within(p, t.stack, STACK_PAGES) ==> p in w.owner && w.owner[p].StackPage? && w.owner[p].id == t.id
  {
  }

  lemma IdlePristine(ws: seq<World>, ss: seq<Step>, m: nat, n: nat, id: int)
    requires IsRun(ws, ss) && m <= n < |ws| && FillsStay(ws, ss, m, n)
    requires forall j :: m <= j <= n ==> Known(ws[j], id) && Find(ws[j], id).state != Running
    ensures Pristine(ws[n], Find(ws[n], id)) <==> Pristine(ws[m], Find(ws[m], id))
  {
    hide Next, Machine, LayoutOk, Laid, DistinctIds, Compatible;
    RegionsStay(ws, ss, m, n, id);
    RunCompatible(ws, ss, m, n);
    var a, b := ws[m], ws[n];
    var t := Find(a, id);
    assert a.pages == b.pages && a.ckpt == b.ckpt by { SameLayout(a, b); }
    forall p: nat | Within(p, t.writable, |a.pages|)
      ensures PrivatePristine(b, t.writable, p) == PrivatePristine(a, t.writable, p)
    {
      ThreadPages(a, t, p);
      IdlePages(ws, ss, m, n, id, p);
      IdlePages(ws, ss, m, n, id, a.ckpt + (p - t.writable));
      MappedPage(a, p); MappedPage(b, p);
      MappedPage(a, a.ckpt + (p - t.writable)); MappedPage(b, a.ckpt + (p - t.writable));
    }
    forall p: nat | Within(p, t.stack, STACK_PAGES)
      ensures StackPristine(b, p) == StackPristine(a, p)
    {
      ThreadPages(a, t, p);
      IdlePages(ws, ss, m, n, id, p);
      MappedPage(a, p); MappedPage(b, p);
    }
  }

  lemma SameLayout(w: World, w': World)
    requires Compatible(w, w')
    ensures w'.pages == w.pages && w'.ckpt == w.ckpt
  {
  }

  lemma MappedPage(w: World, p: nat)
    requires Machine(w) && (p in w.owner || p in w.pgroot)
    ensures p in w.pgroot && w.pgroot[p].frame in w.mem
  {
  }

  /** In every run, tracked or not: a thread that exits at e and is not started again before n, while the fills of
      others stay, has at n the contents of a new thread exactly when at its exit every page that was not pristine
      was dirty. */
  lemma ReusePristineIff(ws: seq<World>, ss: seq<Step>, e: nat, n: nat, id: int)
    requires IsRun(ws, ss) && e < n < |ws| && ss[e].Exit? && ss[e].id == id && Known(ws[e], id)
    requires FillsStay(ws, ss, e + 1, n)
    requires forall j :: e < j <= n ==> Known(ws[j], id) && Find(ws[j], id).state != Running
    ensures Pristine(ws[n], Find(ws[n], id)) <==> Restorable(ws[e], Find(ws[e], id))
  {
    hide Machine, LayoutOk, Laid, Restorable, Pristine, DistinctIds;
    RunStep(ws, ss, e);
    ExitFinds(ws[e], ss[e], ws[e + 1], id);
    ExitPristineIff(ws[e], IndexOf(ws[e].threads, id), ss[e].ret, ws[e + 1]);
    IdlePristine(ws, ss, e + 1, n, id);
  }

  lemma ExitFinds(w: World, s: Step, w': World, id: int)
    requires Sound(w) && Next(w, s, w') && s.Exit? && s.id == id && Known(w, id)
    ensures IndexOf(w'.threads, id) == IndexOf(w.threads, id) < |w'.threads|
  {
    var i := IndexOf(w.threads, id);
    UpdatedIndex(w.threads, i, w'.threads[i], id);
  }
}
