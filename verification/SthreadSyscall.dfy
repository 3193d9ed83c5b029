/** The system-call filter of an sthread: which calls pass, and what their rewritten pointers mean. */
module SthreadSyscall {
  import opened Common
  import opened PageTables
  import opened SthreadModel
  import opened SthreadSteps
  import opened SthreadRuntime
  import G = Grants

  const SYS_READ := 0
  const SYS_WRITE := 1
  const SYS_OPEN := 2
  const SYS_CLOSE := 3

  datatype Verdict = Blocked | Aborted | Pass(ptr: nat)

  predicate NeedsFd(sysno: int) { sysno == SYS_READ || sysno == SYS_WRITE || sysno == SYS_CLOSE }

  predicate NeedsBuffer(sysno: int) { sysno == SYS_READ || sysno == SYS_WRITE || sysno == SYS_OPEN }

  /** The calling thread may do the call and use the descriptor. */
  ghost predicate Granted(sc: G.Sc, sysno: int, fd: int)
    requires sc.sys.Length == G.SYS_BYTES
    reads sc, sc.fd, sc.sys
  {
    && (|| sysno == 666 || sysno == SYS_READ || sysno == SYS_WRITE
        || (0 <= sysno < 8 * G.SYS_BYTES && G.Marked(sc.sys[..], sysno)))
    && (NeedsFd(sysno) ==>
          var g := G.FirstGrant(sc.FdGrants(), fd); g.Some? && G.HasBit(g.value.prot, sysno != SYS_READ))
  }

  /** In one region, byte `at` from the new pointer is byte `at` of the thread's own buffer. */
  ghost predicate MeansTheSame(table: Table, ptr: nat, rewritten: nat, at: nat) {
    Affine(table, ptr / PGSIZE, (ptr + at) / PGSIZE) && (ptr + at) / PGSIZE in table ==>
      rewritten + at == Translate(table, ptr + at)
  }

  lemma RewrittenMeansTheSame(table: Table, ptr: nat)
    ensures ptr / PGSIZE in table ==> forall at :: MeansTheSame(table, ptr, Rewritten(table, ptr), at)
  {
    if ptr / PGSIZE in table {
      forall at ensures MeansTheSame(table, ptr, Rewritten(table, ptr), at) {
        if Affine(table, ptr / PGSIZE, (ptr + at) / PGSIZE) { AffineAddress(table, ptr, at); }
      }
    }
  }

  /** The permission check, byte by byte: the byte after the buffer is checked, too. */
  lemma MemPermBytes(t: Table, ptr: nat, len: nat)
    ensures MemPerm(t, ptr, len) <==> forall a :: ptr <= a <= ptr + len ==> WritableAt(t, a)
  {
    if forall a :: ptr <= a <= ptr + len ==> WritableAt(t, a) {
      forall p | ptr / PGSIZE <= p <= (ptr + len) / PGSIZE ensures p in t && t[p].UserWritable() {
        var a := if p == ptr / PGSIZE then ptr else p * PGSIZE;
        assert a / PGSIZE == p;
        assert WritableAt(t, a);
      }
    }
  }

  ghost predicate WritableAt(t: Table, a: nat) {
    a / 4096 in t && t[a / 4096].present && t[a / 4096].write && t[a / 4096].user
  }

  /** The checks of syscall_handler; `len` is the buffer's length, for open that of the path, and `walk` is st_walk.
      A call passes exactly when it is granted and every page of its buffer is writable.  It aborts for a number outside
      the bitmap and for a granted call with a buffer when st_walk is 0; st_walk becomes 0 exactly by a buffer whose
      first page is not writable. */
  method Screen(sc: G.Sc, table: Table, walk: nat, sysno: int, fd: int, ptr: nat, len: nat)
    returns (v: Verdict, next: nat)
    requires sc.Valid() && G.Defined(sysno)
    requires forall p :: p in table ==> table[p].frame != 0
    ensures v.Aborted? <==> || (sysno != 666 && !(0 <= sysno < 8 * G.SYS_BYTES))
                            || (Granted(sc, sysno, fd) && NeedsBuffer(sysno) && walk == 0)
    ensures v.Pass? <==> && Granted(sc, sysno, fd)
                         && (NeedsBuffer(sysno) ==> walk != 0 && MemPerm(table, ptr, len))
    ensures v.Pass? && NeedsBuffer(sysno) ==> ptr / PGSIZE in table && v.ptr == Rewritten(table, ptr)
    ensures v.Pass? && !NeedsBuffer(sysno) ==> v.ptr == ptr
    // By number: 0 is read, 1 write, 2 open, 3 close.
    ensures v.Pass? && (sysno == 0 || sysno == 1 || sysno == 2) ==>
              MemPerm(table, ptr, len) && forall at :: MeansTheSame(table, ptr, v.ptr, at)
    ensures v.Pass? && sysno != 0 && sysno != 1 && sysno != 2 ==> v.ptr == ptr
    ensures v.Pass? && sysno == 0 ==>
              var g := G.FirstGrant(sc.FdGrants(), fd); g.Some? && g.value.prot % 2 == 1
    ensures v.Pass? && (sysno == 1 || sysno == 3) ==>
              var g := G.FirstGrant(sc.FdGrants(), fd); g.Some? && g.value.prot / 2 % 2 == 1
    ensures sysno == 666 || (4 <= sysno < 128 && G.Marked(sc.sys[..], sysno)) ==> v.Pass?
    ensures sysno == 3 && G.Marked(sc.sys[..], 3) ==>
              var g := G.FirstGrant(sc.FdGrants(), fd); g.Some? && g.value.prot / 2 % 2 == 1 ==> v.Pass?
    ensures sysno == 2 && G.Marked(sc.sys[..], 2) && walk != 0 && MemPerm(table, ptr, len) ==> v.Pass?
    ensures sysno == 0 && walk != 0 && MemPerm(table, ptr, len) ==>
              var g := G.FirstGrant(sc.FdGrants(), fd); g.Some? && g.value.prot % 2 == 1 ==> v.Pass?
    ensures sysno == 1 && walk != 0 && MemPerm(table, ptr, len) ==>
              var g := G.FirstGrant(sc.FdGrants(), fd); g.Some? && g.value.prot / 2 % 2 == 1 ==> v.Pass?
    ensures v.Pass? ==> sysno == 0 || sysno == 1 || sysno == 666 || (0 <= sysno < 128 && G.Marked(sc.sys[..], sysno))
    ensures next == if Granted(sc, sysno, fd) && NeedsBuffer(sysno) && walk != 0 then FirstFrame(table, ptr) else walk
  {
    hide G.Sc.FdGrants, G.Sc.Valid, G.Marked, MemPerm, G.FirstGrant, FirstFrame;
    assert sc.sys.Length == G.SYS_BYTES by { ScShape(sc); }
    RewrittenMeansTheSame(table, ptr);
    next := walk;
    var allowed := sc.CanDoSys(sysno);
    if allowed.None? {
      return Aborted, next;
    }
    if !allowed.value {
      return Blocked, next;
    }
    if NeedsFd(sysno) {
      var ok := sc.HasFdPerm(fd, sysno != SYS_READ);
      if !ok {
        return Blocked, next;
      }
    }
    if NeedsBuffer(sysno) {
      if walk == 0 {
        return Aborted, next;
      }
      var ok;
      ok, next := HasMemPerm(table, ptr, len);
      if !ok {
        return Blocked, next;
      }
      return Pass(next + ptr % PGSIZE), next;
    }
    return Pass(ptr), next;
  }

  /** What syscall_handler does after open returned rc: a new descriptor is granted for reading and writing, and a full
      table or a descriptor of more than 23 bits aborts.  The descriptor can then be used
      both ways exactly when no earlier grant for it says otherwise. */
  method FinishOpen(sc: G.Sc, rc: int) returns (ok: bool)
    requires sc.Valid() && -G.INT_SIZE <= rc < G.INT_SIZE
    modifies sc.fd
    ensures sc.Valid() && (rc < 0 || !ok ==> sc.fd[..] == old(sc.fd[..]))
    ensures ok <==> rc < 0 || (|old(G.Live(sc.fd[..]))| < G.SLOTS && rc < 0x80_0000)
    ensures ok && rc >= 0 ==> sc.FdGrants() == old(sc.FdGrants()) + [G.FdGrant(rc, 3)]
    ensures ok && rc >= 0 ==>
              var g := G.FirstGrant(old(sc.FdGrants()), rc);
              G.FirstGrant(sc.FdGrants(), rc) == if g.Some? then g else Some(G.FdGrant(rc, 3))
  {
    hide G.Sc.FdGrants, G.Live;
    if rc < 0 {
      return true;
    }
    ghost var gs := sc.FdGrants();
    ok := sc.FdAdd(rc, 3);
    G.FirstFdDecides(gs, G.FdGrant(rc, 3), rc);
  }

  lemma ScShape(sc: G.Sc)
    requires sc.Valid()
    ensures sc.sys.Length == G.SYS_BYTES
  {
  }

  // ---------- Buffers inside one region ----------

  /** dune_va_to_pa is affine on a region: its pages have consecutive frames, from `frame` on. */
  ghost predicate Contiguous(pgroot: Table, first: nat, pages: nat, frame: nat) {
    forall p :: first <= p < first + pages ==> p in pgroot && pgroot[p].frame == frame + (p - first)
  }

  /** In a writable segment the thread's frames follow those of its private copy. */
  lemma SegmentBufferAffine(w: World, t: Sthread, frame: nat, i: nat, first: nat, last: nat)
    requires Machine(w) && LayoutOk(w) && Laid(w, t) && Contiguous(w.pgroot, t.writable, |w.pages|, frame)
    requires i < |w.segs| && w.segs[i].writable && w.segs[i].start <= first <= last < w.segs[i].start + w.segs[i].pages
    ensures Affine(t.table, first, last)
  {
    var base := OffsetOf(w.segs, i);
    forall p | first <= p <= last
      ensures p in t.table && t.table[p].frame == frame + base + (p - w.segs[i].start)
    {
      OffsetIsPrefixSum(w.segs, i, p - w.segs[i].start);
      PrivateFrame(w, t, frame, base + (p - w.segs[i].start));
    }
  }

  lemma PrivateFrame(w: World, t: Sthread, frame: nat, k: nat)
    requires Machine(w) && Laid(w, t) && k < |w.pages| && Contiguous(w.pgroot, t.writable, |w.pages|, frame)
    ensures w.pages[k] in t.table && t.table[w.pages[k]].frame == frame + k
  {
    hide FramesOk, SegmentsOk, CheckpointOk, GrantsOk, RegionsOk, BuiltProtected;
    assert w.pages[k] in t.table;
    assert w.pgroot[t.writable + k].frame == frame + k;
    assert t.table[w.pages[k]].Access().frame == t.table[w.pages[k]].frame;
  }

  /** Outside the writable segments (the stack, a tag) the thread keeps the master's frames. */
  lemma RegionBufferAffine(w: World, t: Sthread, frame: nat, base: nat, pages: nat, first: nat, last: nat)
    requires Machine(w) && Laid(w, t) && Contiguous(w.pgroot, base, pages, frame)
    requires base <= first <= last < base + pages
    requires forall p :: base <= p < base + pages ==> p !in w.pages
    ensures Affine(t.table, first, last)
  {
    forall p: nat | first <= p <= last
      ensures p in t.table && t.table[p].frame == frame + (p - base)
    {
      KeptFrame(w, t, p);
    }
  }

  lemma KeptFrame(w: World, t: Sthread, p: nat)
    requires Machine(w) && Laid(w, t) && p in w.pgroot && p !in w.pages
    ensures p in t.table && t.table[p].frame == w.pgroot[p].frame
  {
    hide FramesOk, SegmentsOk, CheckpointOk, GrantsOk, RegionsOk, BuiltPrivate;
    assert t.table[p].Access() == Protected(w.pgroot[p], w.segs, t.sc.mem, t.stack, p).Access();
  }

  /** For a thread of a reachable state: when the filter passes a buffer inside one writable segment, byte `at` of
      the rewritten pointer is byte `at` of the thread's own copy of that segment. */
  lemma SegmentBufferMeaning(w: World, t: Sthread, frame: nat, i: nat, ptr: nat, len: nat, at: nat)
    requires Machine(w) && LayoutOk(w) && Laid(w, t) && Contiguous(w.pgroot, t.writable, |w.pages|, frame)
    requires i < |w.segs| && w.segs[i].writable && at < len
    requires w.segs[i].start * PGSIZE <= ptr && ptr + len <= (w.segs[i].start + w.segs[i].pages) * PGSIZE
    requires MemPerm(t.table, ptr, len)
    ensures (ptr + at) / PGSIZE in t.table && ptr / PGSIZE in t.table
    ensures Rewritten(t.table, ptr) + at == Translate(t.table, ptr + at)
  {
    PageBounds(w.segs[i].start, w.segs[i].pages, ptr, len);
    SegmentBufferAffine(w, t, frame, i, ptr / PGSIZE, (ptr + len - 1) / PGSIZE);
    hide Machine, Laid, LayoutOk, Contiguous;
    RewritePreservesMeaning(t.table, ptr, len, at);
  }

  /** And for a buffer inside the thread's stack or inside one tag. */
  lemma RegionBufferMeaning(w: World, t: Sthread, frame: nat, base: nat, pages: nat, ptr: nat, len: nat, at: nat)
    requires Machine(w) && Laid(w, t) && Contiguous(w.pgroot, base, pages, frame)
    requires forall p :: base <= p < base + pages ==> p in w.owner && (w.owner[p].StackPage? || w.owner[p].TagPage?)
    requires base * PGSIZE <= ptr && ptr + len <= (base + pages) * PGSIZE && at < len
    requires MemPerm(t.table, ptr, len)
    ensures (ptr + at) / PGSIZE in t.table && ptr / PGSIZE in t.table
    ensures Rewritten(t.table, ptr) + at == Translate(t.table, ptr + at)
  {
    forall p: nat | base <= p < base + pages ensures p !in w.pages {
      var _ := SegmentOf(w.segs, p);
    }
    PageBounds(base, pages, ptr, len);
    RegionBufferAffine(w, t, frame, base, pages, ptr / PGSIZE, (ptr + len - 1) / PGSIZE);
    hide Machine, Laid, Contiguous;
    RewritePreservesMeaning(t.table, ptr, len, at);
  }

  lemma PageBounds(start: nat, pages: nat, ptr: nat, len: nat)
    requires len > 0 && start * PGSIZE <= ptr && ptr + len <= (start + pages) * PGSIZE
    ensures start <= ptr / PGSIZE <= (ptr + len - 1) / PGSIZE < start + pages
  {
  }
}
