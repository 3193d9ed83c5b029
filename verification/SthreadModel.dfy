/** The sthread runtime as a transition system: what one create, exit, join, user store, system-call
    buffer fill, master store or tag allocation does to physical memory, page tables and the thread list. */
module SthreadModel {
  import opened Common
  import opened PageTables

  /** Who a page of the master's address space belongs to.  Pages never change hands once taken. */
  datatype Owner =
    | Free
    | SegmentPage
    | CheckpointPage(k: nat)
    | PrivatePage(id: int, k: nat)
    | StackPage(id: int, k: nat)
    | TagPage(base: nat)

  datatype State = Running | Zombie | Dead

  /** The grants of an sthread: sc_mem, sc_fd and sc_sys. */
  datatype Sc = Sc(mem: seq<nat>, fd: seq<nat>, sys: seq<nat>)

  datatype Sthread = Sthread(id: int, state: State, ret: int, sc: Sc, stack: nat, writable: nat, table: Table)

  /** mem maps physical frames to contents; pgroot is the master's page table, through which the
      runtime itself reads and writes; pages are the writable pages of the segments in list order, the
      k-th being the one saved at offset k; ckpt is the first page of _checkpointed_mem. */
  datatype World = World(
    mem: map<nat, Page>,
    pgroot: Table,
    segs: seq<Segment>,
    pages: seq<nat>,
    ckpt: nat,
    threads: seq<Sthread>,
    lastId: int,
    owner: map<nat, Owner>)

  const INT_MAX: int := 0x7fff_ffff

  // ---------- sc_mem words ----------

  function GrantBase(word: nat): (r: nat) { word - word % 16 }

  /** word & PROT_WRITE */
  predicate GrantsWrite(word: nat) { word / 2 % 2 == 1 }

  predicate Covers(word: nat, page: nat) {
    GrantBase(word) <= page * PGSIZE < GrantBase(word) + TAG_PAGES * PGSIZE
  }

  /** The first word before the terminating zero whose tag contains the page. */
  function GrantFor(words: seq<nat>, page: nat): (r: Option<nat>) {
    if words == [] || words[0] == 0 then None
    else if Covers(words[0], page) then Some(words[0])
    else GrantFor(words[1..], page)
  }

  lemma {:induction false} GrantForCovers(words: seq<nat>, page: nat)
    requires GrantFor(words, page).Some?
    ensures var word := GrantFor(words, page).value; word in words && word != 0 && Covers(word, page)
  {
    if !Covers(words[0], page) { GrantForCovers(words[1..], page); }
  }

  /** sc_mem words name whole tags. */
  ghost predicate GrantsOk(w: World, words: seq<nat>) {
    && |words| == 8
    && forall x, p {:trigger Covers(x, p)} ::
         x in words && x != 0 && p in w.owner && Covers(x, p) ==> w.owner[p].TagPage?
  }

  // ---------- Page tables of sthreads ----------

  /** The entry walk_protect leaves: deny by default, read-only segments readable, the stack and
      the granted tags open, a tag without PROT_WRITE not writable. */
  function Protected(e: Pte, segs: seq<Segment>, words: seq<nat>, stack: nat, page: nat): (r: Pte) {
    match SegmentOf(segs, page)
    case Some(s) => e.(user := !s.writable)
    case None =>
      match GrantFor(words, page)
      case Some(word) => e.(user := true, write := e.write && GrantsWrite(word))
      case None => e.(user := stack <= page < stack + STACK_PAGES)
  }

  /** The k-th writable page leads to the k-th page of the private copy. */
  ghost predicate BuiltPrivate(t: Table, pgroot: Table, pages: seq<nat>, writable: nat) {
    forall k :: 0 <= k < |pages| ==>
      && pages[k] in t && writable + k in pgroot
      && t[pages[k]].Access() == Pte(pgroot[writable + k].frame, true, true, true, false)
  }

  /** Every other page is as walk_protect leaves it. */
  ghost predicate BuiltProtected(
    t: Table, pgroot: Table, segs: seq<Segment>, pages: seq<nat>, words: seq<nat>, stack: nat)
    requires t.Keys == pgroot.Keys
  {
    forall p {:trigger Protected(pgroot[p], segs, words, stack, p)} :: p in t && p !in pages ==>
      t[p].Access() == Protected(pgroot[p], segs, words, stack, p).Access()
  }

  /** Table t gives exactly the accesses of a freshly built one. */
  ghost predicate Built(
    t: Table, pgroot: Table, segs: seq<Segment>, pages: seq<nat>, words: seq<nat>, stack: nat, writable: nat)
  {
    && t.Keys == pgroot.Keys
    && BuiltPrivate(t, pgroot, pages, writable)
    && BuiltProtected(t, pgroot, segs, pages, words, stack)
  }

  // ---------- Invariant ----------

  predicate Apart(p: nat, q: nat) { p != q }

  /** Distinct pages have distinct nonzero frames, and frames hold pages. */
  ghost predicate FramesOk(w: World) {
    && (forall p, q {:trigger Apart(p, q)} ::
          p in w.pgroot && q in w.pgroot && Apart(p, q) ==> w.pgroot[p].frame != w.pgroot[q].frame)
    && (forall p :: p in w.pgroot ==> w.pgroot[p].frame in w.mem && w.pgroot[p].frame != 0)
    && w.owner.Keys == w.pgroot.Keys
  }

  /** Segments are mapped, the writable ones make up `pages`, the read-only ones are mapped without PTE_W. */
  ghost predicate SegmentsOk(w: World)
    requires w.owner.Keys == w.pgroot.Keys
  {
    && (forall p {:trigger SegmentOf(w.segs, p)} ::
          p in w.owner ==> (w.owner[p] == SegmentPage <==> SegmentOf(w.segs, p).Some?))
    && (forall p {:trigger SegmentOf(w.segs, p)} ::
          p in w.owner ==> (p in w.pages <==> SegmentOf(w.segs, p).Some? && SegmentOf(w.segs, p).value.writable))
    && (forall p {:trigger SegmentOf(w.segs, p)} ::
          p in w.owner && SegmentOf(w.segs, p).Some? && !SegmentOf(w.segs, p).value.writable ==> !w.pgroot[p].write)
    && (forall k :: 0 <= k < |w.pages| ==> w.pages[k] in w.pgroot)
  }

  /** The checkpoint is a region of its own. */
  ghost predicate CheckpointOk(w: World) {
    forall p :: w.ckpt <= p < w.ckpt + |w.pages| ==>
      p in w.owner && w.owner[p] == CheckpointPage(p - w.ckpt)
  }

  ghost predicate Machine(w: World) {
    FramesOk(w) && SegmentsOk(w) && CheckpointOk(w)
  }

  /** Contents of a page as the runtime sees it, through the master's page table. */
  function Content(w: World, p: nat): (r: Page)
    requires p in w.pgroot && w.pgroot[p].frame in w.mem
  {
    w.mem[w.pgroot[p].frame]
  }

  /** Thread `id` owns its private copy and its stack. */
  ghost predicate RegionsOk(w: World, id: int, stack: nat, writable: nat)
    requires w.owner.Keys == w.pgroot.Keys
  {
    && (forall p :: writable <= p < writable + |w.pages| ==>
          p in w.owner && w.owner[p] == PrivatePage(id, p - writable))
    && (forall p :: stack <= p < stack + STACK_PAGES ==>
          p in w.owner && w.owner[p] == StackPage(id, p - stack)
          && w.pgroot[p].present && w.pgroot[p].write)
  }

  /** Grants, regions and page table of a thread. */
  ghost predicate Laid(w: World, t: Sthread)
    requires Machine(w)
  {
    && 0 < t.id <= w.lastId
    && GrantsOk(w, t.sc.mem)
    && RegionsOk(w, t.id, t.stack, t.writable)
    && Built(t.table, w.pgroot, w.segs, w.pages, t.sc.mem, t.stack, t.writable)
  }

  /** The private page at p holds what the checkpoint holds at the same offset. */
  ghost predicate PrivatePristine(w: World, writable: nat, p: nat) {
    && p in w.pgroot && w.pgroot[p].frame in w.mem
    && writable <= p
    && w.ckpt + (p - writable) in w.pgroot && w.pgroot[w.ckpt + (p - writable)].frame in w.mem
    && Content(w, p) == Content(w, w.ckpt + (p - writable))
  }

  ghost predicate PrivateDirty(w: World, t: Sthread, p: nat) {
    && 0 <= p - t.writable < |w.pages|
    && w.pages[p - t.writable] in t.table
    && t.table[w.pages[p - t.writable]].dirty
  }

  ghost predicate StackPristine(w: World, p: nat) {
    p in w.pgroot && w.pgroot[p].frame in w.mem && Content(w, p) == ZeroPage()
  }

  ghost predicate StackDirty(t: Sthread, p: nat) { p in t.table && t.table[p].dirty }

  /** A page that is not dirty is pristine; after exit every page is. */
  ghost predicate Restorable(w: World, t: Sthread) {
    && (forall p :: t.writable <= p < t.writable + |w.pages| && !PrivatePristine(w, t.writable, p) ==>
          t.state == Running && PrivateDirty(w, t, p))
    && (forall p :: t.stack <= p < t.stack + STACK_PAGES && !StackPristine(w, p) ==>
          t.state == Running && StackDirty(t, p))
  }

  ghost predicate DistinctIds(threads: seq<Sthread>) {
    forall i, j :: 0 <= i < j < |threads| ==> threads[i].id != threads[j].id
  }

  /** Segments are disjoint and their writable pages are the checkpointed ones, in order. */
  ghost predicate LayoutOk(w: World) {
    Disjoint(w.segs) && w.pages == WritablePages(w.segs)
  }

  /** What holds in every reachable world: memory, page tables and grants are in order. */
  ghost predicate Sound(w: World) {
    && Machine(w)
    && LayoutOk(w)
    && 0 <= w.lastId <= INT_MAX
    && DistinctIds(w.threads)
    && (forall i :: 0 <= i < |w.threads| ==> Laid(w, w.threads[i]))
  }

  /** And, as long as every fill is tracked, every thread can be restored. */
  ghost predicate Inv(w: World) {
    Sound(w) && forall i :: 0 <= i < |w.threads| ==> Restorable(w, w.threads[i])
  }

  // ---------- Steps ----------

  /** The position of the first thread with this id, or the length of the list. */
  function IndexOf(threads: seq<Sthread>, id: int): (r: nat)
    ensures r <= |threads|
    ensures r < |threads| ==> threads[r].id == id
    ensures forall i :: 0 <= i < r ==> threads[i].id != id
  {
    if threads == [] then 0
    else if threads[0].id == id then 0
    else
      var r := IndexOf(threads[1..], id);
      assert forall i :: 0 < i < |threads| ==> threads[i] == threads[1..][i - 1];
      1 + r
  }

  /** The thread sthread_create reuses: the first dead one with the same sc_mem. */
  function ReusableIndex(threads: seq<Sthread>, words: seq<nat>): (r: nat)
    ensures r <= |threads|
    ensures r < |threads| ==> threads[r].state == Dead && threads[r].sc.mem == words
    ensures forall i :: 0 <= i < r ==> !(threads[i].state == Dead && threads[i].sc.mem == words)
  {
    if threads == [] then 0
    else if threads[0].state == Dead && threads[0].sc.mem == words then 0
    else
      var r := ReusableIndex(threads[1..], words);
      assert forall i :: 0 < i < |threads| ==> threads[i] == threads[1..][i - 1];
      1 + r
  }

  datatype Step =
    | Create(sc: Sc, stack: nat, writable: nat)
    | Exit(id: int, ret: int)
    | Join(id: int)
    | Store(id: int, va: nat, value: byte)
    | Fill(id: int, ptr: nat, len: nat, at: nat, value: byte)
    | MasterStore(va: nat, value: byte)
    | TagNew(base: nat)

  /** What mmap may return: unused pages the master can write. */
  ghost predicate FreshRegion(w: World, base: nat, pages: nat) {
    forall p :: base <= p < base + pages ==>
      p in w.owner && p in w.pgroot && w.owner[p] == Free && w.pgroot[p].present && w.pgroot[p].write
  }

  predicate Within(p: nat, base: nat, pages: nat) { base <= p < base + pages }

  function FreshOwner(w: World, id: int, stack: nat, writable: nat, p: nat): (r: Owner)
    requires p in w.owner
  {
    if Within(p, stack, STACK_PAGES) then StackPage(id, p - stack)
    else if Within(p, writable, |w.pages|) then PrivatePage(id, p - writable)
    else w.owner[p]
  }

  /** A new stack is zero, a new private copy is the checkpoint. */
  function FreshContent(w: World, stack: nat, writable: nat, p: nat): (r: Page)
    requires Machine(w) && p in w.pgroot
  {
    if Within(p, stack, STACK_PAGES) then ZeroPage()
    else if Within(p, writable, |w.pages|) then Content(w, w.ckpt + (p - writable))
    else Content(w, p)
  }

  /** The two regions create_new_sthread maps. */
  ghost predicate FreshRegions(w: World, stack: nat, writable: nat) {
    && FreshRegion(w, stack, STACK_PAGES)
    && FreshRegion(w, writable, |w.pages|)
    && forall p :: Within(p, stack, STACK_PAGES) ==> !Within(p, writable, |w.pages|)
  }

  /** sthread_create when no dead thread fits. */
  ghost predicate CreateFresh(w: World, sc: Sc, stack: nat, writable: nat, w': World)
    requires Machine(w)
  {
    && w.lastId < INT_MAX
    && GrantsOk(w, sc.mem)
    && FreshRegions(w, stack, writable)
    && |w'.threads| > 0
    && w' == w.(mem := w'.mem, owner := w'.owner, lastId := w.lastId + 1, threads := [w'.threads[0]] + w.threads)
    && w'.threads[0] == Sthread(w.lastId + 1, Running, 0, sc, stack, writable, w'.threads[0].table)
    && Built(w'.threads[0].table, w.pgroot, w.segs, w.pages, sc.mem, stack, writable)
    && (forall k :: 0 <= k < |w.pages| ==> !w'.threads[0].table[w.pages[k]].dirty)
    && w'.owner.Keys == w.owner.Keys
    && (forall p :: p in w.owner ==> w'.owner[p] == FreshOwner(w, w.lastId + 1, stack, writable, p))
    && (forall p :: p in w.pgroot ==> w.pgroot[p].frame in w'.mem)
    && (forall p {:trigger Content(w', p)} :: p in w.pgroot ==> Content(w', p) == FreshContent(w, stack, writable, p))
  }

  /** sthread_create when thread i is dead and has the same sc_mem: only the grants are replaced. */
  ghost predicate CreateReuse(w: World, sc: Sc, i: nat, w': World)
    requires i < |w.threads|
  {
    w' == w.(threads := w.threads[i := w.threads[i].(sc := sc, state := Running)])
  }

  /** Contents of a page after recycle: dirty private pages back to the checkpoint, dirty stack pages zero. */
  function RecycledContent(w: World, t: Sthread, p: nat): (r: Page)
    requires Machine(w) && Laid(w, t) && p in w.pgroot
  {
    if Within(p, t.writable, |w.pages|) then
      if t.table[w.pages[p - t.writable]].dirty then Content(w, w.ckpt + (p - t.writable))
      else Content(w, p)
    else if Within(p, t.stack, STACK_PAGES) && p in t.table && t.table[p].dirty then ZeroPage()
    else Content(w, p)
  }

  /** recycle clears the dirty bits of the writable segments' pages and of no other page. */
  function RecycledTable(t: Table, pages: seq<nat>): (r: Table) {
    map p | p in t :: if p in pages then t[p].(dirty := false) else t[p]
  }

  ghost predicate ExitStep(w: World, i: nat, ret: int, w': World)
    requires Machine(w) && i < |w.threads| && Laid(w, w.threads[i])
  {
    var t := w.threads[i];
    && t.state == Running
    && w' == w.(mem := w'.mem,
                threads := w.threads[i := t.(state := Zombie, ret := ret, table := RecycledTable(t.table, w.pages))])
    && (forall p :: p in w.pgroot ==> w.pgroot[p].frame in w'.mem)
    && (forall p {:trigger Content(w', p)} :: p in w.pgroot ==> Content(w', p) == RecycledContent(w, t, p))
  }

  /** sthread_join: an unknown id or a thread that has not exited leaves everything as it is. */
  ghost predicate JoinStep(w: World, id: int, w': World) {
    var i := IndexOf(w.threads, id);
    if i < |w.threads| && w.threads[i].state == Zombie
    then w' == w.(threads := w.threads[i := w.threads[i].(state := Dead)])
    else w' == w
  }

  /** A user store: a permitted one writes the frame of the page's entry and sets PTE_D, another faults. */
  ghost predicate StoreStep(w: World, i: nat, va: nat, value: byte, w': World)
    requires i < |w.threads|
  {
    var t := w.threads[i];
    var page := va / PGSIZE;
    && t.state == Running
    && if page in t.table && t.table[page].UserWritable() && t.table[page].frame in w.mem
       then
         var e := t.table[page];
         w' == w.(mem := w.mem[e.frame := w.mem[e.frame][va % PGSIZE := value]],
                  threads := w.threads[i := t.(table := t.table[page := e.(dirty := true)])])
       else w' == w
  }

  /** has_mem_perm: every page of the inclusive range ptr .. ptr + len is user writable. */
  ghost predicate MemPerm(t: Table, ptr: nat, len: nat) {
    forall p :: ptr / PGSIZE <= p <= (ptr + len) / PGSIZE ==> p in t && t[p].UserWritable()
  }

  /** The pointer syscall_handler passes on: the frame of the first page plus the offset in it. */
  function Rewritten(t: Table, ptr: nat): (r: nat)
    requires ptr / PGSIZE in t
  {
    t[ptr / PGSIZE].frame * PGSIZE + ptr % PGSIZE
  }

  /** The physical address the thread's own page table gives. */
  function Translate(t: Table, va: nat): (r: nat)
    requires va / PGSIZE in t
  {
    t[va / PGSIZE].frame * PGSIZE + va % PGSIZE
  }

  /** Consecutive pages of the range have consecutive frames. */
  ghost predicate Affine(t: Table, first: nat, last: nat) {
    forall p :: first <= p <= last ==> p in t && first in t && t[p].frame == t[first].frame + (p - first)
  }

  /** The kernel fills byte `at` of a read buffer through the rewritten pointer; no PTE_D is set. */
  ghost predicate FillStep(w: World, i: nat, ptr: nat, len: nat, at: nat, value: byte, w': World)
    requires i < |w.threads|
  {
    var t := w.threads[i];
    && t.state == Running
    && at < len
    && MemPerm(t.table, ptr, len)
    && ptr / PGSIZE in t.table
    && var pa := Rewritten(t.table, ptr) + at;
    && pa / PGSIZE in w.mem
    && w' == w.(mem := w.mem[pa / PGSIZE := w.mem[pa / PGSIZE][pa % PGSIZE := value]])
  }

  /** The fill changes the master's page q: the frame the rewritten pointer leads to is that page's. */
  ghost predicate FillChanges(w: World, i: nat, ptr: nat, at: nat, value: byte, q: nat)
    requires i < |w.threads|
  {
    var t := w.threads[i].table;
    && ptr / PGSIZE in t && q in w.pgroot
    && var pa := Rewritten(t, ptr) + at;
    && w.pgroot[q].frame == pa / PGSIZE && pa / PGSIZE in w.mem
    && w.mem[pa / PGSIZE][pa % PGSIZE] != value
  }

  /** A change of page q makes thread t unrestorable: q is in its private copy or stack, or holds the checkpoint of a
      page of its private copy, and recycle will not restore the page because it is clean or the thread has exited. */
  ghost predicate Uncovered(w: World, t: Sthread, q: nat) {
    || (Within(q, t.writable, |w.pages|) && !(t.state == Running && PrivateDirty(w, t, q)))
    || (Within(q, t.stack, STACK_PAGES) && !(t.state == Running && StackDirty(t, q)))
    || (Within(q, w.ckpt, |w.pages|) && !(t.state == Running && PrivateDirty(w, t, t.writable + (q - w.ckpt))))
  }

  /** recycle will notice what the fill changes, for every thread. */
  ghost predicate FillTracked(w: World, i: nat, ptr: nat, at: nat, value: byte)
    requires i < |w.threads|
  {
    forall q, j :: FillChanges(w, i, ptr, at, value, q) && 0 <= j < |w.threads| ==> !Uncovered(w, w.threads[j], q)
  }

  /** The buffer lies in one region: its pages up to byte `at` have consecutive frames. */
  ghost predicate FillInRegion(w: World, i: nat, ptr: nat, at: nat)
    requires i < |w.threads|
  {
    Affine(w.threads[i].table, ptr / PGSIZE, (ptr + at) / PGSIZE)
  }

  /** The master writes its own globals and the tags through pgroot. */
  ghost predicate MasterStoreStep(w: World, va: nat, value: byte, w': World)
    requires Machine(w)
  {
    var page := va / PGSIZE;
    && page in w.owner && (w.owner[page].SegmentPage? || w.owner[page].TagPage?)
    && var e := w.pgroot[page];
    if e.present && e.write
    then w' == w.(mem := w.mem[e.frame := w.mem[e.frame][va % PGSIZE := value]],
                  pgroot := w.pgroot[page := e.(dirty := true)])
    else w' == w
  }

  ghost predicate TagNewStep(w: World, base: nat, w': World)
    requires Machine(w)
  {
    && FreshRegion(w, base, TAG_PAGES)
    && w' == w.(mem := w'.mem, owner := w'.owner)
    && w'.owner.Keys == w.owner.Keys
    && (forall p :: p in w.owner ==>
          w'.owner[p] == (if Within(p, base, TAG_PAGES) then TagPage(base) else w.owner[p]))
    && (forall p :: p in w.pgroot ==> w.pgroot[p].frame in w'.mem)
    && (forall p {:trigger Content(w', p)} :: p in w.pgroot ==>
          Content(w', p) == (if Within(p, base, TAG_PAGES) then ZeroPage() else Content(w, p)))
  }

  ghost predicate Next(w: World, s: Step, w': World)
    requires Sound(w)
  {
    match s
    case Create(sc, stack, writable) =>
      var i := ReusableIndex(w.threads, sc.mem);
      if i < |w.threads| then CreateReuse(w, sc, i, w') else CreateFresh(w, sc, stack, writable, w')
    case Exit(id, ret) =>
      var i := IndexOf(w.threads, id);
      i < |w.threads| && ExitStep(w, i, ret, w')
    case Join(id) => JoinStep(w, id, w')
    case Store(id, va, value) =>
      var i := IndexOf(w.threads, id);
      i < |w.threads| && StoreStep(w, i, va, value, w')
    case Fill(id, ptr, len, at, value) =>
      var i := IndexOf(w.threads, id);
      i < |w.threads| && FillStep(w, i, ptr, len, at, value, w')
    case MasterStore(va, value) => MasterStoreStep(w, va, value, w')
    case TagNew(base) => TagNewStep(w, base, w')
  }

  /** Every step but a fill is tracked. */
  ghost predicate Tracked(w: World, s: Step) {
    s.Fill? ==>
      var i := IndexOf(w.threads, s.id);
      i < |w.threads| ==> FillTracked(w, i, s.ptr, s.at, s.value)
  }
}
