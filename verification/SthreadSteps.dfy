/** Where a thread's accesses lead, and what one step may change. */
module SthreadSteps {
  import opened Common
  import opened PageTables
  import opened SthreadModel

  /** Memory thread t may change: its private copy, its stack, and tags whose first matching grant has PROT_WRITE. */
  ghost predicate OwnOrGranted(w: World, t: Sthread, p: nat) {
    && p in w.owner
    && match w.owner[p]
       case PrivatePage(id, _) => id == t.id
       case StackPage(id, _) => id == t.id
       case TagPage(_) => GrantFor(t.sc.mem, p).Some? && GrantsWrite(GrantFor(t.sc.mem, p).value)
       case _ => false
  }

  /** Memory thread t may read: also read-only segments and every granted tag. */
  ghost predicate Readable(w: World, t: Sthread, p: nat) {
    && p in w.owner
    && match w.owner[p]
       case PrivatePage(id, _) => id == t.id
       case StackPage(id, _) => id == t.id
       case SegmentPage => SegmentOf(w.segs, p).Some? && !SegmentOf(w.segs, p).value.writable
       case TagPage(_) => GrantFor(t.sc.mem, p).Some?
       case _ => false
  }

  /** The pages a step may change. */
  ghost predicate MayWrite(w: World, s: Step, p: nat) {
    && p in w.owner
    && match s
       case Create(_, _, _) => w.owner[p] == Free
       case TagNew(_) => w.owner[p] == Free
       case Exit(id, _) =>
         (w.owner[p].PrivatePage? || w.owner[p].StackPage?) && w.owner[p].id == id
       case Join(_) => false
       case Store(id, _, _) =>
         var i := IndexOf(w.threads, id);
         i < |w.threads| && OwnOrGranted(w, w.threads[i], p)
       case Fill(id, _, _, _, _) =>
         var i := IndexOf(w.threads, id);
         i < |w.threads| && OwnOrGranted(w, w.threads[i], p)
       case MasterStore(_, _) => w.owner[p].SegmentPage? || w.owner[p].TagPage?
  }

  /** Where a permitted user access ends up: the private copy for a page of a writable segment,
      otherwise the page itself, which is then the thread's stack or a tag granted for writing. */
  lemma ReachOfThread(w: World, t: Sthread, page: nat) returns (q: nat)
    requires Machine(w) && Laid(w, t)
    requires page in t.table && t.table[page].UserWritable()
    ensures q in w.pgroot && t.table[page].frame == w.pgroot[q].frame
    ensures OwnOrGranted(w, t, q)
    ensures Within(q, t.writable, |w.pages|) || Within(q, t.stack, STACK_PAGES) || w.owner[q].TagPage?
    ensures Leads(w, t, page, q)
  {
    if page in w.pages {
      var k :| 0 <= k < |w.pages| && w.pages[k] == page;
      q := t.writable + k;
    } else {
      q := page;
      assert t.table[page].Access() == Protected(w.pgroot[page], w.segs, t.sc.mem, t.stack, page).Access();
      if GrantFor(t.sc.mem, page).Some? { GrantForCovers(t.sc.mem, page); }
      if Within(q, t.writable, |w.pages|) {
        assert false;
      }
    }
  }

  /** Default deny for reading: every entry open to user code leads to a page the thread may read. */
  lemma ReadsOfThread(w: World, t: Sthread, page: nat) returns (q: nat)
    requires Machine(w) && Laid(w, t)
    requires page in t.table && t.table[page].present && t.table[page].user
    ensures q in w.pgroot && t.table[page].frame == w.pgroot[q].frame
    ensures Readable(w, t, q)
    ensures Leads(w, t, page, q)
  {
    if page in w.pages {
      var k :| 0 <= k < |w.pages| && w.pages[k] == page;
      q := t.writable + k;
    } else {
      q := page;
      assert t.table[page].Access() == Protected(w.pgroot[page], w.segs, t.sc.mem, t.stack, page).Access();
      if GrantFor(t.sc.mem, page).Some? { GrantForCovers(t.sc.mem, page); }
      if Within(q, t.writable, |w.pages|) {
        assert false;
      }
    }
  }

  // ---------- What is open to a thread ----------

  /** A grant word, an address with protection bits in its low four, names ten pages from that address on. */
  ghost predicate Names(word: nat, page: nat) {
    word != 0 && word - word % 16 <= page * 4096 < word - word % 16 + 40960
  }

  /** Word i is the first that names the page, and no zero word comes before it. */
  ghost predicate FirstNaming(words: seq<nat>, i: nat, page: nat) {
    && i < |words| && Names(words[i], page)
    && forall j :: 0 <= j < i ==> words[j] != 0 && !Names(words[j], page)
  }

  lemma {:induction false} GrantForIs(words: seq<nat>, i: nat, page: nat)
    requires FirstNaming(words, i, page)
    ensures GrantFor(words, page) == Some(words[i])
    decreases i
  {
    if i > 0 {
      assert words[0] != 0 && !Names(words[0], page);
      assert forall j :: 0 <= j < i ==> words[1..][j] == words[j + 1];
      GrantForIs(words[1..], i - 1, page);
    }
  }

  /** Every page of a granted tag is open to the thread, through the master's frame; it is writable exactly when the
      master's entry is and the first word that names it has PROT_WRITE, its second bit. */
  lemma TagOpen(w: World, t: Sthread, i: nat, page: nat)
    requires Machine(w) && Laid(w, t) && page in w.pgroot && FirstNaming(t.sc.mem, i, page)
    ensures page in t.table && t.table[page].user && t.table[page].frame == w.pgroot[page].frame
    ensures t.table[page].present == w.pgroot[page].present
    ensures t.table[page].write <==> w.pgroot[page].write && t.sc.mem[i] / 2 % 2 == 1
    ensures w.owner[page].TagPage?
  {
    hide BuiltPrivate, RegionsOk, CheckpointOk;
    GrantForIs(t.sc.mem, i, page);
    assert Covers(t.sc.mem[i], page);
    var _ := SegmentOf(w.segs, page);
    assert t.table[page].Access() == Protected(w.pgroot[page], w.segs, t.sc.mem, t.stack, page).Access();
  }

  /** Every page of a read-only segment is open to every thread, through the master's frame, and not writable. */
  lemma ReadOnlyOpen(w: World, t: Sthread, i: nat, page: nat)
    requires Machine(w) && LayoutOk(w) && Laid(w, t) && page in w.pgroot
    requires i < |w.segs| && !w.segs[i].writable && w.segs[i].start <= page < w.segs[i].start + w.segs[i].pages
    ensures page in t.table && t.table[page].user && t.table[page].frame == w.pgroot[page].frame
    ensures t.table[page].present == w.pgroot[page].present && !t.table[page].write
  {
    hide BuiltPrivate, RegionsOk, CheckpointOk, GrantsOk;
    SegmentOfFinds(w.segs, page);
    assert w.segs[i].Has(page);
    var k :| 0 <= k < |w.segs| && w.segs[k] == SegmentOf(w.segs, page).value;
    assert k == i;
    assert t.table[page].Access() == Protected(w.pgroot[page], w.segs, t.sc.mem, t.stack, page).Access();
  }

  /** Address of byte `at` of a buffer in an affine range. */
  lemma AffineAddress(t: Table, ptr: nat, at: nat)
    requires Affine(t, ptr / PGSIZE, (ptr + at) / PGSIZE)
    ensures (ptr + at) / PGSIZE in t && ptr / PGSIZE in t
    ensures Rewritten(t, ptr) + at == Translate(t, ptr + at)
    ensures (Rewritten(t, ptr) + at) / PGSIZE == t[(ptr + at) / PGSIZE].frame
  {
    assert ptr / PGSIZE <= (ptr + at) / PGSIZE;
  }

  /** Byte `at` of the rewritten buffer is byte `at` of the buffer exactly when the page it lies in is as many frames
      after the first page's as it is pages after it. */
  lemma RewriteMeansIff(t: Table, ptr: nat, at: nat)
    requires ptr / PGSIZE in t && (ptr + at) / PGSIZE in t
    ensures Rewritten(t, ptr) + at == Translate(t, ptr + at) <==>
            t[(ptr + at) / PGSIZE].frame == t[ptr / PGSIZE].frame + ((ptr + at) / PGSIZE - ptr / PGSIZE)
  {
    assert ptr == ptr / PGSIZE * PGSIZE + ptr % PGSIZE;
    assert ptr + at == (ptr + at) / PGSIZE * PGSIZE + (ptr + at) % PGSIZE;
  }

  /** Pointer rewriting preserves meaning: when has_mem_perm accepts a buffer whose pages have consecutive
      frames, byte `at` of the rewritten buffer is byte `at` of the buffer the thread's own table gives. */
  lemma RewritePreservesMeaning(t: Table, ptr: nat, len: nat, at: nat)
    requires MemPerm(t, ptr, len) && at < len
    requires Affine(t, ptr / PGSIZE, (ptr + len - 1) / PGSIZE)
    ensures (ptr + at) / PGSIZE in t && ptr / PGSIZE in t
    ensures Rewritten(t, ptr) + at == Translate(t, ptr + at)
    ensures t[(ptr + at) / PGSIZE].UserWritable()
  {
    assert (ptr + at) / PGSIZE <= (ptr + len - 1) / PGSIZE <= (ptr + len) / PGSIZE;
    AffineAddress(t, ptr, at);
  }

  // ---------- Frames ----------

  /** What never changes: layout, accesses of the master's table, and owners once given. */
  ghost predicate Compatible(w: World, w': World) {
    && w'.segs == w.segs && w'.pages == w.pages && w'.ckpt == w.ckpt && w.lastId <= w'.lastId
    && w'.pgroot.Keys == w.pgroot.Keys && w'.owner.Keys == w.owner.Keys
    && (forall p :: p in w.pgroot ==> w'.pgroot[p].Access() == w.pgroot[p].Access())
    && (forall p :: p in w.pgroot ==> w.pgroot[p].frame in w'.mem)
    && (forall p :: p in w.owner && w.owner[p] != Free ==> w'.owner[p] == w.owner[p])
    && (forall p :: p in w.owner && w.owner[p] == Free ==> w'.owner[p] != SegmentPage)
  }

  lemma FramesStable(w: World, w': World)
    requires FramesOk(w) && Compatible(w, w')
    ensures FramesOk(w')
    ensures forall p :: p in w.pgroot ==> w'.pgroot[p].frame == w.pgroot[p].frame
  {
    forall p | p in w.pgroot
      ensures w'.pgroot[p].frame == w.pgroot[p].frame
    {
      assert w'.pgroot[p].Access() == w.pgroot[p].Access();
    }
  }

  lemma SegmentsStable(w: World, w': World)
    requires FramesOk(w) && SegmentsOk(w) && Compatible(w, w')
    ensures SegmentsOk(w')
  {
    forall p | p in w.pgroot
      ensures w'.pgroot[p].write == w.pgroot[p].write
    {
      assert w'.pgroot[p].Access() == w.pgroot[p].Access();
    }
  }

  lemma CheckpointStable(w: World, w': World)
    requires CheckpointOk(w) && Compatible(w, w')
    ensures CheckpointOk(w')
  {
  }

  lemma MachineStable(w: World, w': World)
    requires Machine(w) && Compatible(w, w')
    ensures Machine(w')
  {
    FramesStable(w, w');
    SegmentsStable(w, w');
    CheckpointStable(w, w');
  }

  lemma RegionsStable(w: World, w': World, t: Sthread)
    requires FramesOk(w) && Compatible(w, w') && RegionsOk(w, t.id, t.stack, t.writable)
    ensures RegionsOk(w', t.id, t.stack, t.writable)
  {
    forall p | p in w.pgroot
      ensures w'.pgroot[p].write == w.pgroot[p].write && w'.pgroot[p].present == w.pgroot[p].present
    {
      assert w'.pgroot[p].Access() == w.pgroot[p].Access();
    }
  }

  lemma GrantsStable(w: World, w': World, words: seq<nat>)
    requires Compatible(w, w') && GrantsOk(w, words)
    ensures GrantsOk(w', words)
  {
  }

  lemma LaidStable(w: World, w': World, t: Sthread)
    requires Machine(w) && Compatible(w, w') && Machine(w') && Laid(w, t)
    ensures Laid(w', t)
  {
    RegionsStable(w, w', t);
    GrantsStable(w, w', t.sc.mem);
    BuiltStable(t.table, w.pgroot, w'.pgroot, w.segs, w.pages, t.sc.mem, t.stack, t.writable);
  }

  lemma ProtectedStable(a: Pte, b: Pte, segs: seq<Segment>, words: seq<nat>, stack: nat, p: nat)
    requires a.Access() == b.Access()
    ensures Protected(a, segs, words, stack, p).Access() == Protected(b, segs, words, stack, p).Access()
  {
  }

  lemma BuiltPrivateStable(t: Table, a: Table, b: Table, pages: seq<nat>, writable: nat)
    requires BuiltPrivate(t, a, pages, writable) && a.Keys == b.Keys
    requires forall p :: p in a ==> a[p].Access() == b[p].Access()
    ensures BuiltPrivate(t, b, pages, writable)
  {
    forall k | 0 <= k < |pages|
      ensures pages[k] in t && writable + k in b
      ensures t[pages[k]].Access() == Pte(b[writable + k].frame, true, true, true, false)
    {
      assert pages[k] in t && writable + k in a;
      assert a[writable + k].Access() == b[writable + k].Access();
    }
  }

  lemma BuiltProtectedStable(
    t: Table, a: Table, b: Table, segs: seq<Segment>, pages: seq<nat>, words: seq<nat>, stack: nat)
    requires t.Keys == a.Keys == b.Keys && BuiltProtected(t, a, segs, pages, words, stack)
    requires forall p :: p in a ==> a[p].Access() == b[p].Access()
    ensures BuiltProtected(t, b, segs, pages, words, stack)
  {
    forall p {:trigger Protected(b[p], segs, words, stack, p)} | p in t && p !in pages
      ensures t[p].Access() == Protected(b[p], segs, words, stack, p).Access()
    {
      ProtectedStable(a[p], b[p], segs, words, stack, p);
    }
  }

  lemma BuiltStable(t: Table, a: Table, b: Table, segs: seq<Segment>, pages: seq<nat>,
                    words: seq<nat>, stack: nat, writable: nat)
    requires Built(t, a, segs, pages, words, stack, writable) && a.Keys == b.Keys
    requires forall p :: p in a ==> a[p].Access() == b[p].Access()
    ensures Built(t, b, segs, pages, words, stack, writable)
  {
    BuiltPrivateStable(t, a, b, pages, writable);
    BuiltProtectedStable(t, a, b, segs, pages, words, stack);
  }

  /** Pages of t, and the checkpoint, hold the same in both worlds. */
  ghost predicate SamePages(w: World, w': World, id: int)
    requires FramesOk(w) && Compatible(w, w') && FramesOk(w')
  {
    forall p :: p in w.owner &&
      (w.owner[p].CheckpointPage? || ((w.owner[p].PrivatePage? || w.owner[p].StackPage?) && w.owner[p].id == id))
      ==> Content(w', p) == Content(w, p)
  }

  lemma PristineStable(w: World, w': World, t: Sthread, p: nat)
    requires p in w.pgroot && p in w'.pgroot && w.pgroot[p].frame in w.mem && w'.pgroot[p].frame in w'.mem
    requires t.writable <= p && w'.ckpt == w.ckpt
    requires PrivatePristine(w, t.writable, p) && Content(w', p) == Content(w, p)
    requires w.ckpt + (p - t.writable) in w'.pgroot && w'.pgroot[w.ckpt + (p - t.writable)].frame in w'.mem
    requires Content(w', w.ckpt + (p - t.writable)) == Content(w, w.ckpt + (p - t.writable))
    ensures PrivatePristine(w', t.writable, p)
  {
  }

  lemma PrivateRestorableStable(w: World, w': World, t: Sthread, p: nat)
    requires FramesOk(w) && CheckpointOk(w) && Compatible(w, w') && FramesOk(w')
    requires RegionsOk(w, t.id, t.stack, t.writable) && Restorable(w, t) && SamePages(w, w', t.id)
    requires t.writable <= p < t.writable + |w.pages| && !PrivatePristine(w', t.writable, p)
    ensures t.state == Running && PrivateDirty(w', t, p)
  {
    assert w.owner[p].PrivatePage? && w.owner[w.ckpt + (p - t.writable)].CheckpointPage?;
    if PrivatePristine(w, t.writable, p) {
      PristineStable(w, w', t, p);
    }
  }

  lemma StackRestorableStable(w: World, w': World, t: Sthread, p: nat)
    requires FramesOk(w) && Compatible(w, w') && FramesOk(w')
    requires RegionsOk(w, t.id, t.stack, t.writable) && Restorable(w, t) && SamePages(w, w', t.id)
    requires t.stack <= p < t.stack + STACK_PAGES && !StackPristine(w', p)
    ensures t.state == Running && StackDirty(t, p)
  {
    assert w.owner[p].StackPage?;
    assert !StackPristine(w, p);
  }

  lemma RestorableStable(w: World, w': World, t: Sthread)
    requires FramesOk(w) && CheckpointOk(w) && Compatible(w, w') && FramesOk(w')
    requires RegionsOk(w, t.id, t.stack, t.writable) && Restorable(w, t) && SamePages(w, w', t.id)
    ensures Restorable(w', t)
  {
    forall p: nat | t.writable <= p < t.writable + |w.pages| && !PrivatePristine(w', t.writable, p)
      ensures t.state == Running && PrivateDirty(w', t, p)
    {
      PrivateRestorableStable(w, w', t, p);
    }
    forall p: nat | t.stack <= p < t.stack + STACK_PAGES && !StackPristine(w', p)
      ensures t.state == Running && StackDirty(t, p)
    {
      StackRestorableStable(w, w', t, p);
    }
  }

  /** Every page but q holds the same in both worlds. */
  ghost predicate SameBut(w: World, w': World, q: nat)
    requires FramesOk(w) && Compatible(w, w') && FramesOk(w')
  {
    forall p {:trigger Content(w', p)} :: p in w.pgroot && p != q ==> Content(w', p) == Content(w, p)
  }

  /** Writing one frame changes one page. */
  lemma WriteFrame(w: World, w': World, q: nat, page: Page)
    requires Machine(w) && Compatible(w, w') && FramesOk(w') && q in w.pgroot
    requires w'.mem == w.mem[w.pgroot[q].frame := page]
    ensures SameBut(w, w', q)
    ensures Content(w', q) == page
  {
    forall p | p in w.pgroot && p != q
      ensures Content(w', p) == Content(w, p)
    {
      assert Apart(p, q);
      assert w'.pgroot[p].Access() == w.pgroot[p].Access();
    }
    assert w'.pgroot[q].Access() == w.pgroot[q].Access();
  }

  /** The thread's page `page` is backed by the master's page q. */
  ghost predicate Leads(w: World, t: Sthread, page: nat, q: nat) {
    if page in w.pages
    then Within(q, t.writable, |w.pages|) && w.pages[q - t.writable] == page
    else q == page && !Within(q, t.writable, |w.pages|)
  }

  function Dirtied(t: Sthread, page: nat): (r: Sthread)
    requires page in t.table
  {
    t.(table := t.table[page := t.table[page].(dirty := true)])
  }

  /** The effect of a permitted store: one page, owned by the thread or granted to it, gets new
      contents, and the thread's page that leads there is marked dirty. */
  ghost predicate UserWrite(w: World, i: nat, page: nat, q: nat, w': World)
    requires i < |w.threads|
  {
    var t := w.threads[i];
    && page in t.table && Leads(w, t, page, q)
    && q in w.pgroot && OwnOrGranted(w, t, q)
    && w.pgroot[q].frame in w'.mem
    && w' == w.(mem := w.mem[w.pgroot[q].frame := w'.mem[w.pgroot[q].frame]],
                threads := w.threads[i := Dirtied(t, page)])
  }

  lemma StoreIsUserWrite(w: World, i: nat, va: nat, value: byte, w': World) returns (q: nat)
    requires Machine(w) && i < |w.threads| && Laid(w, w.threads[i])
    requires StoreStep(w, i, va, value, w') && w' != w
    ensures UserWrite(w, i, va / PGSIZE, q, w')
  {
    q := ReachOfThread(w, w.threads[i], va / PGSIZE);
  }

  lemma UserWriteFrame(w: World, i: nat, page: nat, q: nat, w': World)
    requires Machine(w) && i < |w.threads| && UserWrite(w, i, page, q, w')
    ensures Compatible(w, w') && FramesOk(w')
    ensures SameBut(w, w', q)
  {
    FramesStable(w, w');
    WriteFrame(w, w', q, w'.mem[w.pgroot[q].frame]);
  }

  /** A user store changes nothing but memory the thread owns or was granted. */
  lemma StoreFrame(w: World, i: nat, va: nat, value: byte, w': World)
    requires Machine(w) && i < |w.threads| && Laid(w, w.threads[i])
    requires StoreStep(w, i, va, value, w')
    ensures Compatible(w, w')
    ensures forall p :: p in w.pgroot && !OwnOrGranted(w, w.threads[i], p) ==> Content(w', p) == Content(w, p)
  {
    if w' != w {
      var q := StoreIsUserWrite(w, i, va, value, w');
      UserWriteFrame(w, i, va / PGSIZE, q, w');
    }
  }

  // ---------- Buffer fills ----------

  /** A fill changes exactly the page whose frame the rewritten pointer leads to, whoever owns it. */
  lemma FillChange(w: World, i: nat, ptr: nat, len: nat, at: nat, value: byte, w': World)
    requires Machine(w) && i < |w.threads| && FillStep(w, i, ptr, len, at, value, w')
    ensures Compatible(w, w') && FramesOk(w') && w' == w.(mem := w'.mem)
    ensures forall p {:trigger Content(w', p)} :: p in w.pgroot ==>
              (Content(w', p) != Content(w, p) <==> FillChanges(w, i, ptr, at, value, p))
  {
    hide SegmentsOk, CheckpointOk, MemPerm;
    var pa := Rewritten(w.threads[i].table, ptr) + at;
    var f := pa / PGSIZE;
    assert Compatible(w, w');
    FramesStable(w, w');
    forall p {:trigger Content(w', p)} | p in w.pgroot
      ensures Content(w', p) != Content(w, p) <==> FillChanges(w, i, ptr, at, value, p)
    {
      assert w'.pgroot[p] == w.pgroot[p];
      if w.pgroot[p].frame == f {
        assert Content(w', p) == Content(w, p)[pa % PGSIZE := value];
        assert Content(w', p)[pa % PGSIZE] == value;
      }
    }
  }

  /** What the fill changes is the thread's own memory or a tag granted for writing. */
  ghost predicate FillStays(w: World, i: nat, ptr: nat, at: nat, value: byte)
    requires i < |w.threads|
  {
    forall q :: FillChanges(w, i, ptr, at, value, q) ==> OwnOrGranted(w, w.threads[i], q)
  }

  /** Every step but a fill stays in the memory of its thread. */
  ghost predicate Stays(w: World, s: Step) {
    s.Fill? ==>
      var i := IndexOf(w.threads, s.id);
      i < |w.threads| ==> FillStays(w, i, s.ptr, s.at, s.value)
  }

  /** A fill leaves alone what a store would leave alone exactly when it stays. */
  lemma FillFrameIff(w: World, i: nat, ptr: nat, len: nat, at: nat, value: byte, w': World)
    requires Machine(w) && i < |w.threads| && FillStep(w, i, ptr, len, at, value, w')
    ensures Compatible(w, w') && FramesOk(w')
    ensures (forall p :: p in w.pgroot && !OwnOrGranted(w, w.threads[i], p) ==> Content(w', p) == Content(w, p)) <==>
            FillStays(w, i, ptr, at, value)
  {
    hide SegmentsOk, CheckpointOk, MemPerm, FillStep, OwnOrGranted, FillChanges;
    FillChange(w, i, ptr, len, at, value, w');
    if forall p :: p in w.pgroot && !OwnOrGranted(w, w.threads[i], p) ==> Content(w', p) == Content(w, p) {
      forall q | FillChanges(w, i, ptr, at, value, q) ensures OwnOrGranted(w, w.threads[i], q) {
        ChangedIsMapped(w, i, ptr, at, value, q);
        assert Content(w', q) != Content(w, q);
      }
    }
  }

  lemma ChangedIsMapped(w: World, i: nat, ptr: nat, at: nat, value: byte, q: nat)
    requires i < |w.threads| && FillChanges(w, i, ptr, at, value, q)
    ensures q in w.pgroot
  {
  }

  /** In one region the fill changes at most the page the thread's own table leads to. */
  lemma RegionFillChanges(w: World, i: nat, ptr: nat, len: nat, at: nat, value: byte) returns (q: nat)
    requires Machine(w) && i < |w.threads| && Laid(w, w.threads[i]) && FillInRegion(w, i, ptr, at)
    requires MemPerm(w.threads[i].table, ptr, len) && at < len
    ensures var t := w.threads[i];
            var page := (ptr + at) / PGSIZE;
            && page in t.table && q in w.pgroot && OwnOrGranted(w, t, q) && Leads(w, t, page, q)
            && (Within(q, t.writable, |w.pages|) || Within(q, t.stack, STACK_PAGES) || w.owner[q].TagPage?)
            && w.pgroot[q].frame == t.table[page].frame && w.pgroot[q].frame in w.mem
            && (FillChanges(w, i, ptr, at, value, q) <==> w.mem[t.table[page].frame][(ptr + at) % PGSIZE] != value)
    ensures forall p :: FillChanges(w, i, ptr, at, value, p) ==> p == q
  {
    var t := w.threads[i];
    var page := (ptr + at) / PGSIZE;
    AffineAddress(t.table, ptr, at);
    assert ptr / PGSIZE <= page <= (ptr + len) / PGSIZE;
    assert t.table[page].UserWritable();
    q := ReachOfThread(w, t, page);
    hide SegmentsOk, CheckpointOk, Laid, OwnOrGranted, Leads, MemPerm, Affine;
    SameOffset(t.table, ptr, at);
    forall p | FillChanges(w, i, ptr, at, value, p) ensures p == q {
      assert Apart(p, q) || p == q;
    }
  }

  lemma SameOffset(t: Table, ptr: nat, at: nat)
    requires ptr / PGSIZE in t
    ensures (Rewritten(t, ptr) + at) % PGSIZE == (ptr + at) % PGSIZE
  {
  }

  /** So a fill in one region stays. */
  lemma RegionFillStays(w: World, i: nat, ptr: nat, len: nat, at: nat, value: byte)
    requires Machine(w) && i < |w.threads| && Laid(w, w.threads[i]) && FillInRegion(w, i, ptr, at)
    requires MemPerm(w.threads[i].table, ptr, len) && at < len
    ensures FillStays(w, i, ptr, at, value)
  {
    hide Machine, Laid, FillInRegion, MemPerm, FillChanges, OwnOrGranted, Leads;
    var q := RegionFillChanges(w, i, ptr, len, at, value);
  }

  lemma MasterStoreFrame(w: World, va: nat, value: byte, w': World)
    requires Machine(w) && MasterStoreStep(w, va, value, w')
    ensures Compatible(w, w') && FramesOk(w')
    ensures SameBut(w, w', va / PGSIZE)
    ensures va / PGSIZE in w.owner && (w.owner[va / PGSIZE].SegmentPage? || w.owner[va / PGSIZE].TagPage?)
  {
    FramesStable(w, w');
    if w' != w {
      WriteFrame(w, w', va / PGSIZE, w'.mem[w.pgroot[va / PGSIZE].frame]);
    }
  }

  lemma ExitCompatible(w: World, i: nat, ret: int, w': World)
    requires Machine(w) && i < |w.threads| && Laid(w, w.threads[i]) && ExitStep(w, i, ret, w')
    ensures Compatible(w, w')
  {
  }

  /** Threads change and nothing else. */
  lemma ThreadsOnlyCompatible(w: World, w': World)
    requires FramesOk(w) && w' == w.(threads := w'.threads)
    ensures Compatible(w, w')
  {
  }

  lemma ExitFrame(w: World, i: nat, ret: int, w': World, p: nat)
    requires Machine(w) && i < |w.threads| && Laid(w, w.threads[i]) && ExitStep(w, i, ret, w')
    requires p in w.owner
    requires !((w.owner[p].PrivatePage? || w.owner[p].StackPage?) && w.owner[p].id == w.threads[i].id)
    ensures Compatible(w, w') && Content(w', p) == Content(w, p)
  {
    assert RecycledContent(w, w.threads[i], p) == Content(w, p);
  }

  lemma CreateCompatible(w: World, sc: Sc, stack: nat, writable: nat, w': World)
    requires Machine(w) && CreateFresh(w, sc, stack, writable, w')
    ensures Compatible(w, w')
  {
    forall q | q in w.owner
      ensures w.owner[q] != Free ==> w'.owner[q] == w.owner[q]
      ensures w.owner[q] == Free ==> w'.owner[q] != SegmentPage
    {
      assert w'.owner[q] == FreshOwner(w, w.lastId + 1, stack, writable, q);
    }
  }

  lemma CreateFrame(w: World, sc: Sc, stack: nat, writable: nat, w': World, p: nat)
    requires Machine(w) && CreateFresh(w, sc, stack, writable, w')
    requires p in w.owner && w.owner[p] != Free
    ensures Content(w', p) == Content(w, p)
  {
    assert FreshContent(w, stack, writable, p) == Content(w, p);
  }

  lemma TagNewCompatible(w: World, base: nat, w': World)
    requires Machine(w) && TagNewStep(w, base, w')
    ensures Compatible(w, w')
  {
  }

  lemma TagNewFrame(w: World, base: nat, w': World, p: nat)
    requires Machine(w) && TagNewStep(w, base, w')
    requires p in w.owner && w.owner[p] != Free
    ensures Content(w', p) == Content(w, p)
  {
  }

  lemma StepCompatible(w: World, s: Step, w': World)
    requires Sound(w) && Next(w, s, w')
    ensures Compatible(w, w') && FramesOk(w')
  {
    hide DistinctIds, LayoutOk, SegmentsOk, CheckpointOk, Laid, StoreStep, FillStep,
      ExitStep, CreateFresh, TagNewStep, MasterStoreStep, Compatible, FramesOk;
    match s {
    case Store(id, va, value) => StoreFrame(w, IndexOf(w.threads, id), va, value, w');
    case Fill(id, ptr, len, at, value) => FillFrameIff(w, IndexOf(w.threads, id), ptr, len, at, value, w');
    case MasterStore(va, value) => MasterStoreFrame(w, va, value, w');
    case Exit(id, ret) => ExitCompatible(w, IndexOf(w.threads, id), ret, w');
    case Create(sc, stack, writable) =>
      if ReusableIndex(w.threads, sc.mem) == |w.threads| { CreateCompatible(w, sc, stack, writable, w'); }
      else { ThreadsOnlyCompatible(w, w'); }
    case TagNew(base) => TagNewCompatible(w, base, w');
    case Join(_) => ThreadsOnlyCompatible(w, w');
    }
    FramesStable(w, w');
  }

  /** What tag_new maps can be read and written through the master's table. */
  lemma TagNewPresent(w: World, base: nat, w': World, page: nat)
    requires Machine(w) && TagNewStep(w, base, w') && base <= page < base + 10
    ensures page in w'.pgroot && w'.pgroot[page].present && w'.pgroot[page].write
  {
    assert page in w.owner;
  }

  lemma AccessKept(w: World, w': World, page: nat)
    requires Compatible(w, w') && page in w.pgroot
    ensures page in w'.pgroot && w'.pgroot[page].present == w.pgroot[page].present
    ensures w'.pgroot[page].write == w.pgroot[page].write && w'.pgroot[page].frame == w.pgroot[page].frame
  {
    assert w'.pgroot[page].Access() == w.pgroot[page].Access();
  }

  /** The pages a step touches: a fill the page it changes, another step those it may write. */
  ghost predicate Touches(w: World, s: Step, p: nat) {
    if s.Fill?
    then var i := IndexOf(w.threads, s.id); i < |w.threads| && FillChanges(w, i, s.ptr, s.at, s.value, p)
    else MayWrite(w, s, p)
  }

  /** A step that stays touches only what it may write. */
  lemma StayingTouches(w: World, s: Step, p: nat)
    requires Stays(w, s) && Touches(w, s, p)
    ensures MayWrite(w, s, p)
  {
    hide FillChanges;
  }

  /** Fills in one region stay. */
  lemma RegionStepStays(w: World, s: Step, w': World)
    requires Sound(w) && Next(w, s, w')
    requires s.Fill? ==> FillInRegion(w, IndexOf(w.threads, s.id), s.ptr, s.at)
    ensures Stays(w, s)
  {
    hide Machine, Laid, FillInRegion, FillStays, MemPerm;
    if s.Fill? { RegionFillStays(w, IndexOf(w.threads, s.id), s.ptr, s.len, s.at, s.value); }
  }

  /** Every step leaves alone the pages it does not touch. */
  lemma StepFrame(w: World, s: Step, w': World, p: nat)
    requires Sound(w) && Next(w, s, w') && Compatible(w, w') && FramesOk(w')
    requires p in w.owner && !Touches(w, s, p)
    ensures Content(w', p) == Content(w, p)
  {
    hide DistinctIds, LayoutOk, SegmentsOk, CheckpointOk, Laid, StoreStep, FillStep, FillChanges,
      ExitStep, CreateFresh, TagNewStep, MasterStoreStep;
    match s
    case Store(id, va, value) => StoreFrame(w, IndexOf(w.threads, id), va, value, w');
    case Fill(id, ptr, len, at, value) => FillChange(w, IndexOf(w.threads, id), ptr, len, at, value, w');
    case MasterStore(va, value) => MasterStoreFrame(w, va, value, w');
    case Exit(id, ret) => ExitFrame(w, IndexOf(w.threads, id), ret, w', p);
    case Create(sc, stack, writable) =>
      if ReusableIndex(w.threads, sc.mem) == |w.threads| { CreateFrame(w, sc, stack, writable, w', p); }
    case TagNew(base) => TagNewFrame(w, base, w', p);
    case Join(_) =>
  }
}
