/** From the checkpoint to what a new sthread sees of the master's globals. */
module SthreadCheckpoint {
  import opened Common
  import opened PageTables
  import opened SthreadModel
  import opened SthreadSteps
  import opened SthreadInvariant
  import opened SthreadRuns
  import opened SthreadRuntime

  /** A pristine thread finds the k-th page of the checkpoint at the k-th writable page, and may write there. */
  lemma PristineSeesCheckpoint(w: World, t: Sthread, k: nat)
    requires Machine(w) && Laid(w, t) && Pristine(w, t) && k < |w.pages|
    ensures w.pages[k] in t.table && t.table[w.pages[k]].UserWritable() && t.table[w.pages[k]].frame in w.mem
    ensures w.ckpt + k in w.pgroot && w.pgroot[w.ckpt + k].frame in w.mem
    ensures w.mem[t.table[w.pages[k]].frame] == Content(w, w.ckpt + k)
  {
    hide SegmentsOk, GrantsOk, BuiltProtected;
    assert w.pages[k] in t.table;
    assert t.table[w.pages[k]].Access() == Pte(w.pgroot[t.writable + k].frame, true, true, true, false);
    assert PrivatePristine(w, t.writable, t.writable + k);
  }

  /** checkpoint_do leaves at offset k what the master holds at the k-th writable page. */
  lemma SavedPage(w: World, mem: map<nat, Page>, k: nat)
    requires Machine(w) && Saved(w, |w.pages|, mem) && k < |w.pages|
    ensures w.pages[k] in w.pgroot && w.pgroot[w.pages[k]].frame in w.mem
    ensures w.ckpt + k in w.owner && w.owner[w.ckpt + k].CheckpointPage?
    ensures w.ckpt + k in w.pgroot && w.pgroot[w.ckpt + k].frame in mem
    ensures mem[w.pgroot[w.ckpt + k].frame] == Content(w, w.pages[k])
  {
    hide SegmentsOk;
    assert w.ckpt + k in w.owner;
    assert w.pages[k] in w.pgroot by { PagesMapped(w, k); }
  }

  lemma PagesMapped(w: World, k: nat)
    requires Machine(w) && k < |w.pages|
    ensures w.pages[k] in w.pgroot
  {
  }

  /** The place in the list of the thread a create starts. */
  ghost function Started(w: World, s: Step): (r: nat)
    requires s.Create?
  {
    var i := ReusableIndex(w.threads, s.sc.mem);
    if i < |w.threads| then i else 0
  }

  lemma StartedPristine(w: World, s: Step, w': World)
    requires Inv(w) && s.Create? && Next(w, s, w')
    ensures Started(w, s) < |w'.threads| && w'.threads[Started(w, s)].state == Running
    ensures w'.threads[Started(w, s)].sc == s.sc && Pristine(w', w'.threads[Started(w, s)])
  {
    hide Machine, LayoutOk, Laid, DistinctIds, Restorable, Pristine, Built, GrantsOk, FreshRegions;
    var i := ReusableIndex(w.threads, s.sc.mem);
    if i < |w.threads| {
      DeadRestorable(w, i);
      SamePristine(w, w', w.threads[i], w'.threads[i]);
    } else {
      FreshPristine(w, s.sc, s.stack, s.writable, w');
    }
  }

  /** From checkpoint_do in world w0 on, over every run whose fills recycle can notice and stay: the thread a create
      starts, new or reused, finds at every page of a writable segment what the master held there at the checkpoint,
      in memory it may write. */
  lemma StartedThreadSeesCheckpoint(w0: World, ws: seq<World>, ss: seq<Step>, n: nat, i: nat, page: nat)
    requires Machine(w0) && LayoutOk(w0) && |ws| > 0 && ws[0] == w0.(mem := ws[0].mem)
    requires Saved(w0, |w0.pages|, ws[0].mem)
    requires IsTrackedRun(ws, ss) && n < |ss| && ss[n].Create? && FillsStay(ws, ss, 0, n + 1)
    requires i < |w0.segs| && w0.segs[i].writable && w0.segs[i].start <= page < w0.segs[i].start + w0.segs[i].pages
    ensures page in w0.pgroot && w0.pgroot[page].frame in w0.mem && Started(ws[n], ss[n]) < |ws[n + 1].threads|
    ensures var w, t := ws[n + 1], ws[n + 1].threads[Started(ws[n], ss[n])];
            && t.state == Running && page in t.table && t.table[page].UserWritable() && t.table[page].frame in w.mem
            && w.mem[t.table[page].frame] == Content(w0, page)
  {
    hide Machine, LayoutOk, Laid, DistinctIds, Restorable, Pristine, Next, FillsStay, Saved, Compatible, OffsetOf;
    var k := OffsetOf(w0.segs, i) + (page - w0.segs[i].start);
    assert k < |w0.pages| && w0.pages[k] == page by { PageAtOffset(w0, i, page); }
    SavedPage(w0, ws[0].mem, k);
    RunInv(ws, ss, n);
    RunStep(ws, ss, n);
    StartedPristine(ws[n], ss[n], ws[n + 1]);
    RunCompatible(ws, ss, 0, n + 1);
    SameLayout(ws[0], ws[n + 1]);
    CheckpointIsolated(ws, ss, 0, n + 1, w0.ckpt + k);
    PristineSeesCheckpoint(ws[n + 1], ws[n + 1].threads[Started(ws[n], ss[n])], k);
  }

  lemma SameLayout(w: World, w': World)
    requires Compatible(w, w')
    ensures w'.pages == w.pages && w'.ckpt == w.ckpt
  {
  }

  lemma PageAtOffset(w: World, i: nat, page: nat)
    requires LayoutOk(w) && i < |w.segs| && w.segs[i].writable
    requires w.segs[i].start <= page < w.segs[i].start + w.segs[i].pages
    ensures var k := OffsetOf(w.segs, i) + (page - w.segs[i].start); k < |w.pages| && w.pages[k] == page
  {
    OffsetIsPrefixSum(w.segs, i, page - w.segs[i].start);
  }
}
