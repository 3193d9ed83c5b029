/** The runtime's own code: the loops over segments, pages and threads, each proved to perform the step
    of the transition system it stands for.  st_walk is the local counter `walk`. */
module SthreadRuntime {
  import opened Common
  import opened PageTables
  import opened SthreadModel
  import opened SthreadSteps

  // ---------- What the page walks have done after `d` pages ----------

  /** checkpoint_do: the first d pages of the checkpoint hold the first d writable pages. */
  ghost predicate Saved(w: World, d: nat, mem: map<nat, Page>)
    requires Machine(w) && d <= |w.pages|
  {
    && mem.Keys == w.mem.Keys
    && forall p :: p in w.pgroot ==> mem[w.pgroot[p].frame] == SavedContent(w, d, p)
  }

  ghost function SavedContent(w: World, d: nat, p: nat): (r: Page)
    requires Machine(w) && d <= |w.pages| && p in w.pgroot
  {
    if Within(p, w.ckpt, d) then Content(w, w.pages[p - w.ckpt]) else Content(w, p)
  }

  lemma SavedStep(w: World, d: nat, mem: map<nat, Page>)
    requires Machine(w) && d < |w.pages| && Saved(w, d, mem)
    ensures w.ckpt + d in w.pgroot && w.pages[d] in w.pgroot
    ensures w.pgroot[w.ckpt + d].frame in mem && w.pgroot[w.pages[d]].frame in mem
    ensures Saved(w, d + 1, mem[w.pgroot[w.ckpt + d].frame := mem[w.pgroot[w.pages[d]].frame]])
  {
    var c := w.ckpt + d;
    assert c in w.owner && w.owner[c].CheckpointPage?;
    var _ := SegmentOf(w.segs, w.pages[d]);
    assert w.owner[w.pages[d]] == SegmentPage;
    var mem' := mem[w.pgroot[c].frame := mem[w.pgroot[w.pages[d]].frame]];
    forall p | p in w.pgroot
      ensures mem'[w.pgroot[p].frame] == SavedContent(w, d + 1, p)
    {
      if p != c { assert Apart(p, c); }
    }
  }

  /** recycle: the first d private pages have been dealt with. */
  ghost predicate Recycling(w: World, t: Sthread, d: nat, mem: map<nat, Page>, table: Table)
    requires Machine(w) && Laid(w, t) && d <= |w.pages|
  {
    RecyclingMem(w, t, d, mem) && table == RecycledTable(t.table, w.pages[..d])
  }

  ghost predicate RecyclingMem(w: World, t: Sthread, d: nat, mem: map<nat, Page>)
    requires Machine(w) && Laid(w, t) && d <= |w.pages|
  {
    && mem.Keys == w.mem.Keys
    && forall p :: p in w.pgroot ==>
         mem[w.pgroot[p].frame] == (if Within(p, t.writable, d) then RecycledContent(w, t, p) else Content(w, p))
  }

  ghost predicate DistinctPages(pages: seq<nat>) {
    forall i, j :: 0 <= i < j < |pages| ==> pages[i] != pages[j]
  }

  lemma LayoutDistinct(w: World)
    requires LayoutOk(w)
    ensures DistinctPages(w.pages)
  {
    forall i, j | 0 <= i < j < |w.pages|
      ensures w.pages[i] != w.pages[j]
    {
      if w.pages[i] == w.pages[j] { OffsetsInjective(w.segs, i, j); }
    }
  }

  /** The entry visited at counter d is still the thread's, and clearing it extends the cleared prefix. */
  lemma RecycledTableStep(t: Table, pages: seq<nat>, d: nat)
    requires DistinctPages(pages) && d < |pages| && pages[d] in t
    ensures pages[d] in RecycledTable(t, pages[..d])
    ensures RecycledTable(t, pages[..d])[pages[d]] == t[pages[d]]
    ensures RecycledTable(t, pages[..d + 1])
         == RecycledTable(t, pages[..d])[pages[d] := t[pages[d]].(dirty := false)]
  {
    assert pages[..d + 1] == pages[..d] + [pages[d]];
    assert pages[d] !in pages[..d];
  }

  /** recycle clears exactly the dirty bits of pages in writable segments and changes nothing else of the entries. */
  lemma RecycledBits(t: Table, segs: seq<Segment>, p: nat)
    requires Disjoint(segs)
    ensures RecycledTable(t, WritablePages(segs)).Keys == t.Keys
    ensures p in t ==>
              var e := RecycledTable(t, WritablePages(segs))[p];
              && e.frame == t[p].frame && e.present == t[p].present && e.write == t[p].write && e.user == t[p].user
              && (e.dirty <==> t[p].dirty && !InWritable(segs, p))
  {
    WritableIffInWritableSegment(segs, p);
    SegmentOfFinds(segs, p);
    if i :| 0 <= i < |segs| && segs[i].writable && segs[i].start <= p < segs[i].start + segs[i].pages {
      assert segs[i].Has(p);
      var k :| 0 <= k < |segs| && segs[k] == SegmentOf(segs, p).value;
      assert k == i;
    }
  }

  ghost predicate InWritable(segs: seq<Segment>, p: nat) {
    exists i :: 0 <= i < |segs| && segs[i].writable && segs[i].start <= p < segs[i].start + segs[i].pages
  }

  /** Writing the frame of page q changes no other page. */
  lemma OneFrame(w: World, mem: map<nat, Page>, q: nat, page: Page)
    requires FramesOk(w) && mem.Keys == w.mem.Keys && q in w.pgroot
    ensures forall p :: p in w.pgroot && p != q ==>
              mem[w.pgroot[q].frame := page][w.pgroot[p].frame] == mem[w.pgroot[p].frame]
    ensures mem[w.pgroot[q].frame := page].Keys == w.mem.Keys
  {
    forall p | p in w.pgroot && p != q
      ensures mem[w.pgroot[q].frame := page][w.pgroot[p].frame] == mem[w.pgroot[p].frame]
    {
      assert Apart(p, q);
    }
  }

  lemma RecyclingPages(w: World, t: Sthread, d: nat)
    requires Machine(w) && Laid(w, t) && d < |w.pages|
    ensures t.writable + d in w.pgroot && w.ckpt + d in w.pgroot && w.pages[d] in t.table
    ensures t.writable + d != w.ckpt + d && !Within(w.ckpt + d, t.writable, |w.pages|)
  {
    hide SegmentsOk, GrantsOk, BuiltProtected;
    assert w.pages[d] in t.table;
    assert w.owner[t.writable + d].PrivatePage? && w.owner[w.ckpt + d].CheckpointPage?;
  }

  lemma RecyclingMemStep(w: World, t: Sthread, d: nat, mem: map<nat, Page>)
    requires Machine(w) && Laid(w, t) && d < |w.pages| && RecyclingMem(w, t, d, mem)
    ensures t.writable + d in w.pgroot && w.ckpt + d in w.pgroot && w.pages[d] in t.table
    ensures w.pgroot[t.writable + d].frame in mem && w.pgroot[w.ckpt + d].frame in mem
    ensures RecyclingMem(w, t, d + 1,
              if t.table[w.pages[d]].dirty
              then mem[w.pgroot[t.writable + d].frame := mem[w.pgroot[w.ckpt + d].frame]] else mem)
  {
    RecyclingPages(w, t, d);
    var q := t.writable + d;
    var c := w.ckpt + d;
    assert w.pgroot[q].frame in mem && w.pgroot[c].frame in mem;
    OneFrame(w, mem, q, mem[w.pgroot[c].frame]);
    hide FramesOk, SegmentsOk, CheckpointOk, Laid;
    var mem' := if t.table[w.pages[d]].dirty then mem[w.pgroot[q].frame := mem[w.pgroot[c].frame]] else mem;
    assert mem'[w.pgroot[q].frame] == RecycledContent(w, t, q);
    forall p | p in w.pgroot
      ensures mem'[w.pgroot[p].frame] ==
        (if Within(p, t.writable, d + 1) then RecycledContent(w, t, p) else Content(w, p))
    {
      assert p != q ==> mem'[w.pgroot[p].frame] == mem[w.pgroot[p].frame];
    }
  }

  /** One call of walk_recycle. */
  lemma RecyclingStep(w: World, t: Sthread, d: nat, mem: map<nat, Page>, table: Table)
    requires Machine(w) && Laid(w, t) && DistinctPages(w.pages) && d < |w.pages| && Recycling(w, t, d, mem, table)
    ensures w.pages[d] in table
    ensures t.writable + d in w.pgroot && w.ckpt + d in w.pgroot
    ensures w.pgroot[t.writable + d].frame in mem && w.pgroot[w.ckpt + d].frame in mem
    ensures table[w.pages[d]].dirty ==>
              Recycling(w, t, d + 1, mem[w.pgroot[t.writable + d].frame := mem[w.pgroot[w.ckpt + d].frame]],
                        table[w.pages[d] := table[w.pages[d]].(dirty := false)])
    ensures !table[w.pages[d]].dirty ==> Recycling(w, t, d + 1, mem, table)
  {
    hide RecycledTable, FramesOk, SegmentsOk, CheckpointOk, Laid, RecyclingMem;
    RecyclingMemStep(w, t, d, mem);
    RecycledTableStep(t.table, w.pages, d);
    if !table[w.pages[d]].dirty {
      assert table[w.pages[d]].(dirty := false) == table[w.pages[d]];
      assert table[w.pages[d] := table[w.pages[d]]] == table;
    }
  }

  /** recycle's second walk: all private pages and the first d stack pages have been dealt with. */
  ghost predicate StackRecycling(w: World, t: Sthread, d: nat, mem: map<nat, Page>)
    requires Machine(w) && Laid(w, t)
  {
    && mem.Keys == w.mem.Keys
    && forall p :: p in w.pgroot ==>
         mem[w.pgroot[p].frame] ==
         (if Within(p, t.writable, |w.pages|) || Within(p, t.stack, d) then RecycledContent(w, t, p) else Content(w, p))
  }

  lemma StackRecyclingStart(w: World, t: Sthread, mem: map<nat, Page>)
    requires Machine(w) && Laid(w, t) && RecyclingMem(w, t, |w.pages|, mem)
    ensures StackRecycling(w, t, 0, mem)
  {
    hide SegmentsOk, CheckpointOk, RegionsOk, GrantsOk, Built;
  }

  lemma StackRecyclingEnd(w: World, t: Sthread, mem: map<nat, Page>)
    requires Machine(w) && Laid(w, t) && StackRecycling(w, t, STACK_PAGES, mem)
    ensures forall p :: p in w.pgroot ==> w.pgroot[p].frame in mem
    ensures forall p :: p in w.pgroot ==> mem[w.pgroot[p].frame] == RecycledContent(w, t, p)
  {
    hide SegmentsOk, CheckpointOk, RegionsOk, GrantsOk, Built;
  }

  lemma StackRecyclingStep(w: World, t: Sthread, d: nat, mem: map<nat, Page>)
    requires Machine(w) && Laid(w, t) && d < STACK_PAGES && StackRecycling(w, t, d, mem)
    ensures t.stack + d in t.table && t.stack + d in w.pgroot && t.stack + d !in w.pages
    ensures w.pgroot[t.stack + d].frame in mem
    ensures StackRecycling(w, t, d + 1,
              if t.table[t.stack + d].dirty then mem[w.pgroot[t.stack + d].frame := ZeroPage()] else mem)
  {
    hide GrantsOk, BuiltProtected, BuiltPrivate, CheckpointOk;
    var q := t.stack + d;
    assert q in w.owner && w.owner[q].StackPage?;
    var _ := SegmentOf(w.segs, q);
    var mem' := if t.table[q].dirty then mem[w.pgroot[q].frame := ZeroPage()] else mem;
    forall p | p in w.pgroot
      ensures mem'[w.pgroot[p].frame] ==
        (if Within(p, t.writable, |w.pages|) || Within(p, t.stack, d + 1) then RecycledContent(w, t, p)
         else Content(w, p))
    {
      if p != q { assert Apart(p, q); }
    }
  }

  /** create_new_sthread: the new stack is zero and the first d pages of the checkpoint have been copied. */
  ghost predicate Copying(w: World, stack: nat, writable: nat, d: nat, mem: map<nat, Page>)
    requires Machine(w) && d <= |w.pages|
  {
    && mem.Keys == w.mem.Keys
    && forall p :: p in w.pgroot ==>
         mem[w.pgroot[p].frame] ==
         (if Within(p, stack, STACK_PAGES) || Within(p, writable, d) then FreshContent(w, stack, writable, p)
          else Content(w, p))
  }

  lemma CopyingStep(w: World, stack: nat, writable: nat, d: nat, mem: map<nat, Page>)
    requires Machine(w) && FreshRegions(w, stack, writable) && d < |w.pages| && Copying(w, stack, writable, d, mem)
    ensures writable + d in w.pgroot && w.ckpt + d in w.pgroot
    ensures w.pgroot[writable + d].frame in mem && w.pgroot[w.ckpt + d].frame in mem
    ensures Copying(w, stack, writable, d + 1, mem[w.pgroot[writable + d].frame := mem[w.pgroot[w.ckpt + d].frame]])
  {
    hide SegmentsOk;
    var q := writable + d;
    var c := w.ckpt + d;
    assert q in w.owner && w.owner[q] == Free && c in w.owner && w.owner[c].CheckpointPage?;
    assert !Within(q, stack, STACK_PAGES);
    var mem' := mem[w.pgroot[q].frame := mem[w.pgroot[c].frame]];
    forall p | p in w.pgroot
      ensures mem'[w.pgroot[p].frame] ==
        (if Within(p, stack, STACK_PAGES) || Within(p, writable, d + 1) then FreshContent(w, stack, writable, p)
         else Content(w, p))
    {
      if p != q { assert Apart(p, q); }
    }
  }

  /** The first d writable pages have been remapped, the others are as walk_protect left them. */
  ghost predicate Remapping(w: World, words: seq<nat>, stack: nat, writable: nat, d: nat, table: Table)
    requires d <= |w.pages|
  {
    && table.Keys == w.pgroot.Keys
    && Remapped(w, writable, d, table)
    && Unremapped(w, words, stack, d, table)
  }

  ghost predicate Remapped(w: World, writable: nat, d: nat, table: Table)
    requires d <= |w.pages|
  {
    forall k :: 0 <= k < d ==>
      && w.pages[k] in table && writable + k in w.pgroot
      && table[w.pages[k]] == Pte(w.pgroot[writable + k].frame, true, true, true, false)
  }

  ghost predicate Unremapped(w: World, words: seq<nat>, stack: nat, d: nat, table: Table)
    requires d <= |w.pages| && table.Keys == w.pgroot.Keys
  {
    forall p :: p in table && p !in w.pages[..d] ==>
      table[p] == Protected(w.pgroot[p], w.segs, words, stack, p)
  }

  lemma RemappedStep(w: World, writable: nat, d: nat, table: Table)
    requires DistinctPages(w.pages) && d < |w.pages| && Remapped(w, writable, d, table)
    requires writable + d in w.pgroot
    ensures Remapped(w, writable, d + 1,
                     table[w.pages[d] := Pte(w.pgroot[writable + d].frame, true, true, true, false)])
  {
    var table' := table[w.pages[d] := Pte(w.pgroot[writable + d].frame, true, true, true, false)];
    forall k | 0 <= k < d + 1
      ensures w.pages[k] in table' && writable + k in w.pgroot
      ensures table'[w.pages[k]] == Pte(w.pgroot[writable + k].frame, true, true, true, false)
    {
      if k < d { assert w.pages[k] != w.pages[d]; }
    }
  }

  lemma UnremappedStep(w: World, words: seq<nat>, stack: nat, d: nat, table: Table, e: Pte)
    requires d < |w.pages| && table.Keys == w.pgroot.Keys && Unremapped(w, words, stack, d, table)
    requires w.pages[d] in w.pgroot
    ensures table[w.pages[d] := e].Keys == w.pgroot.Keys
    ensures Unremapped(w, words, stack, d + 1, table[w.pages[d] := e])
  {
    var table' := table[w.pages[d] := e];
    assert table'.Keys == w.pgroot.Keys;
    assert w.pages[..d + 1] == w.pages[..d] + [w.pages[d]];
    forall p | p in table' && p !in w.pages[..d + 1]
      ensures table'[p] == Protected(w.pgroot[p], w.segs, words, stack, p)
    {
      assert p !in w.pages[..d] && p != w.pages[d];
    }
  }

  lemma RemapPages(w: World, stack: nat, writable: nat, d: nat)
    requires Machine(w) && FreshRegions(w, stack, writable) && d < |w.pages|
    ensures writable + d in w.pgroot && w.pages[d] in w.pgroot
  {
  }

  /** One call of walk_remap. */
  lemma RemappingStep(w: World, words: seq<nat>, stack: nat, writable: nat, d: nat, table: Table)
    requires DistinctPages(w.pages) && d < |w.pages| && Remapping(w, words, stack, writable, d, table)
    requires writable + d in w.pgroot && w.pages[d] in w.pgroot
    ensures Remapping(w, words, stack, writable, d + 1,
                      table[w.pages[d] := Pte(w.pgroot[writable + d].frame, true, true, true, false)])
  {
    hide Remapped, Unremapped;
    RemappedStep(w, writable, d, table);
    UnremappedStep(w, words, stack, d, table, Pte(w.pgroot[writable + d].frame, true, true, true, false));
  }

  lemma RemappedIsPrivate(w: World, writable: nat, table: Table)
    requires Remapped(w, writable, |w.pages|, table)
    ensures BuiltPrivate(table, w.pgroot, w.pages, writable)
    ensures forall k :: 0 <= k < |w.pages| ==> w.pages[k] in table && !table[w.pages[k]].dirty
  {
    forall k {:trigger w.pages[k]} | 0 <= k < |w.pages|
      ensures w.pages[k] in table && writable + k in w.pgroot
      ensures table[w.pages[k]].Access() == Pte(w.pgroot[writable + k].frame, true, true, true, false)
    {
      assert w.pages[k] in table;
      assert table[w.pages[k]].Access() == table[w.pages[k]];
    }
  }

  lemma UnremappedIsProtected(w: World, words: seq<nat>, stack: nat, table: Table)
    requires table.Keys == w.pgroot.Keys && Unremapped(w, words, stack, |w.pages|, table)
    ensures BuiltProtected(table, w.pgroot, w.segs, w.pages, words, stack)
  {
    hide Protected;
    assert w.pages[..|w.pages|] == w.pages;
  }

  lemma RemappedIsBuilt(w: World, words: seq<nat>, stack: nat, writable: nat, table: Table)
    requires Remapping(w, words, stack, writable, |w.pages|, table)
    ensures Built(table, w.pgroot, w.segs, w.pages, words, stack, writable)
    ensures forall k :: 0 <= k < |w.pages| ==> w.pages[k] in table && !table[w.pages[k]].dirty
  {
    hide Remapped, Unremapped, BuiltPrivate, BuiltProtected;
    RemappedIsPrivate(w, writable, table);
    UnremappedIsProtected(w, words, stack, table);
  }

  // ---------- Pure searches written as loops in the source ----------

  /** The loop of walk_protect over the segment list. */
  method FindSegment(segs: seq<Segment>, page: nat) returns (r: Option<Segment>)
    ensures r == SegmentOf(segs, page)
  {
    var i := 0;
    while i < |segs|
      invariant i <= |segs|
      invariant SegmentOf(segs, page) == SegmentOf(segs[i..], page)
    {
      if segs[i].Has(page) {
        return Some(segs[i]);
      }
      assert segs[i..][1..] == segs[i + 1..];
      i := i + 1;
    }
    return None;
  }

  /** walk_protect: deny, then open by segment, stack or first matching grant. */
  method WalkProtect(e: Pte, segs: seq<Segment>, words: seq<nat>, stack: nat, page: nat) returns (r: Pte)
    ensures r == Protected(e, segs, words, stack, page)
  {
    r := e.(user := false);
    var s := FindSegment(segs, page);
    if s.Some? {
      if !s.value.writable {
        r := r.(user := true);
      }
      return;
    }
    if stack <= page < stack + STACK_PAGES {
      r := r.(user := true);
    }
    var i := 0;
    while i < |words|
      invariant i <= |words|
      invariant r == e.(user := stack <= page < stack + STACK_PAGES)
      invariant GrantFor(words, page) == GrantFor(words[i..], page)
    {
      var tag := words[i];
      if tag == 0 {
        return;
      }
      var a := tag - tag % 16;
      if a <= page * PGSIZE < a + TAG_PAGES * PGSIZE {
        r := r.(user := true);
        if tag / 2 % 2 == 0 {
          r := r.(write := false);
        }
        return;
      }
      assert words[i..][1..] == words[i + 1..];
      i := i + 1;
    }
  }

  /** What the walk leaves in st_walk. */
  function FirstFrame(table: Table, ptr: nat): (r: nat) {
    var p := ptr / PGSIZE;
    if p in table && table[p].UserWritable() then table[p].frame * PGSIZE else 0
  }

  /** has_mem_perm: walks the pages of ptr .. ptr + len inclusive, stopping at the first that is not user
      writable; `walk` ends as the address of the first frame, or as 0 if already the first page is not. */
  method HasMemPerm(table: Table, ptr: nat, len: nat) returns (ok: bool, walk: nat)
    requires forall p :: p in table ==> table[p].frame != 0
    ensures ok <==> MemPerm(table, ptr, len)
    ensures walk == FirstFrame(table, ptr)
    ensures ok ==> ptr / PGSIZE in table && walk + ptr % PGSIZE == Rewritten(table, ptr)
  {
    walk := 0;
    var first, last := ptr / PGSIZE, (ptr + len) / PGSIZE;
    var p := first;
    while p <= last
      invariant first <= p <= last + 1
      invariant forall q :: first <= q < p ==> q in table && table[q].UserWritable()
      invariant if p == first then walk == 0 else first in table && walk == table[first].frame * PGSIZE
      decreases last + 1 - p
    {
      if p !in table || !table[p].user || !table[p].present || !table[p].write {
        return false, walk;
      }
      if walk == 0 {
        walk := table[p].frame * PGSIZE;
      }
      p := p + 1;
    }
    return true, walk;
  }

  // ---------- The kernel state ----------

  class Runtime {
    var mem: map<nat, Page>
    var pgroot: Table
    var segs: seq<Segment>
    var ckpt: nat
    var threads: seq<Sthread>
    var lastId: int
    ghost var owner: map<nat, Owner>

    ghost function View(): (w: World)
      reads this
    {
      World(mem, pgroot, segs, WritablePages(segs), ckpt, threads, lastId, owner)
    }

    /** checkpoint_do: page k of the checkpoint becomes a copy of the k-th writable page; nothing else changes. */
    method CheckpointDo()
      requires Machine(View()) && LayoutOk(View())
      modifies this`mem
      ensures Saved(old(View()), |WritablePages(segs)|, mem)
    {
      ghost var w := View();
      var i, c := 0, 0;
      assert Saved(w, 0, mem);
      hide Machine, Saved, LayoutOk;
      while i < |segs|
        invariant i <= |segs| && c == OffsetOf(segs, i) == |WritablePages(segs[..i])| <= |w.pages|
        invariant Saved(w, c, mem)
      {
        WritablePagesStep(segs, i);
        OffsetIsPrefixLength(segs, i + 1);
        if segs[i].writable {
          c := CheckpointSegment(i, c, w);
        }
        i := i + 1;
      }
      assert segs[..|segs|] == segs;
    }

    /** memcpy of one writable segment. */
    method CheckpointSegment(i: nat, c0: nat, ghost w: World) returns (c: nat)
      requires Machine(w) && LayoutOk(w) && View() == w.(mem := mem)
      requires i < |segs| && segs[i].writable && c0 == OffsetOf(segs, i) <= |w.pages| && Saved(w, c0, mem)
      modifies this`mem
      ensures c == c0 + segs[i].pages <= |w.pages| && Saved(w, c, mem)
    {
      hide Machine, Saved;
      c := c0;
      var j := 0;
      while j < segs[i].pages
        invariant j <= segs[i].pages && c == c0 + j <= |w.pages|
        invariant Saved(w, c, mem)
      {
        OffsetIsPrefixSum(segs, i, j);
        SavedStep(w, c, mem);
        mem := mem[pgroot[ckpt + c].frame := mem[pgroot[segs[i].start + j].frame]];
        c, j := c + 1, j + 1;
      }
    }

    /** recycle: two walks that restore the dirty pages of thread i. */
    method Recycle(i: nat) returns (table: Table)
      requires Sound(View()) && i < |threads|
      modifies this`mem
      ensures table == RecycledTable(threads[i].table, WritablePages(segs))
      ensures forall p :: p in pgroot ==> pgroot[p].frame in mem
      ensures forall p :: p in pgroot ==> mem[pgroot[p].frame] == RecycledContent(old(View()), threads[i], p)
    {
      ghost var w := View();
      assert Machine(w) && LayoutOk(w) && Laid(w, threads[i]);
      hide Machine, LayoutOk, Laid, DistinctIds, RecycledTable, RecycledContent, RecyclingMem;
      table := RecycleSegments(i, w);
      assert w.pages[..|w.pages|] == w.pages;
      RecycleStack(i, table, w);
    }

    /** walk_recycle over the writable segments. */
    method RecycleSegments(i: nat, ghost w: World) returns (table: Table)
      requires Machine(w) && LayoutOk(w) && View() == w && i < |threads| && Laid(w, threads[i])
      modifies this`mem
      ensures Recycling(w, threads[i], |w.pages|, mem, table)
    {
      var t := threads[i];
      LayoutDistinct(w);
      table := t.table;
      assert Recycling(w, t, 0, mem, table) by { assert RecycledTable(t.table, w.pages[..0]) == t.table; }
      hide Machine, Laid, LayoutOk, Recycling, DistinctPages;
      var n, walk := 0, 0;
      assert w.pages == WritablePages(segs);
      while n < |segs|
        invariant n <= |segs| && walk == OffsetOf(segs, n) == |WritablePages(segs[..n])| <= |w.pages|
        invariant Recycling(w, t, walk, mem, table)
      {
        WritablePagesStep(segs, n);
        OffsetIsPrefixLength(segs, n + 1);
        if segs[n].writable {
          walk, table := RecycleSegment(t, n, walk, table, w);
        }
        n := n + 1;
      }
      assert segs[..|segs|] == segs;
    }

    method RecycleSegment(t: Sthread, n: nat, walk0: nat, table0: Table, ghost w: World)
      returns (walk: nat, table: Table)
      requires Machine(w) && Laid(w, t) && View() == w.(mem := mem) && w.pages == WritablePages(segs)
      requires DistinctPages(w.pages)
      requires n < |segs| && segs[n].writable && walk0 == OffsetOf(segs, n) <= |w.pages|
      requires Recycling(w, t, walk0, mem, table0)
      modifies this`mem
      ensures walk == walk0 + segs[n].pages <= |w.pages| && Recycling(w, t, walk, mem, table)
    {
      hide Machine, Laid, Recycling, DistinctPages;
      walk, table := walk0, table0;
      var j := 0;
      while j < segs[n].pages
        invariant j <= segs[n].pages && walk == walk0 + j <= |w.pages|
        invariant Recycling(w, t, walk, mem, table)
      {
        OffsetIsPrefixSum(segs, n, j);
        RecyclingStep(w, t, walk, mem, table);
        var va := segs[n].start + j;
        if table[va].dirty {
          mem := mem[pgroot[t.writable + walk].frame := mem[pgroot[ckpt + walk].frame]];
          table := table[va := table[va].(dirty := false)];
        }
        walk, j := walk + 1, j + 1;
      }
    }

    /** walk_recycle_stack: zeroes dirty stack pages and leaves their dirty bits set. */
    method RecycleStack(i: nat, table: Table, ghost w: World)
      requires Machine(w) && i < |w.threads| && Laid(w, w.threads[i]) && View() == w.(mem := mem)
      requires Recycling(w, w.threads[i], |w.pages|, mem, table)
      modifies this`mem
      ensures forall p :: p in pgroot ==> pgroot[p].frame in mem
      ensures forall p :: p in pgroot ==> mem[pgroot[p].frame] == RecycledContent(w, threads[i], p)
    {
      var t := threads[i];
      var walk := 0;
      assert w.pages[..|w.pages|] == w.pages;
      StackRecyclingStart(w, t, mem);
      hide Machine, Laid, RecyclingMem, StackRecycling, RecycledContent;
      while walk < STACK_PAGES
        invariant walk <= STACK_PAGES
        invariant StackRecycling(w, t, walk, mem)
      {
        StackRecyclingStep(w, t, walk, mem);
        if table[t.stack + walk].dirty {
          mem := mem[pgroot[t.stack + walk].frame := ZeroPage()];
        }
        walk := walk + 1;
      }
      StackRecyclingEnd(w, t, mem);
    }

    /** System call 666: save the return value, recycle, become a zombie. */
    method ExitThread(i: nat, ret: int)
      requires Sound(View()) && i < |threads| && threads[i].state == Running
      modifies this`mem, this`threads
      ensures ExitStep(old(View()), i, ret, View())
    {
      var table := Recycle(i);
      threads := threads[i := threads[i].(ret := ret, state := Zombie, table := table)];
    }

    /** sthread_join: the loop that searches the list, then the zombie test.  An unknown id fails; a thread
        that has not exited keeps its caller waiting, which is the answer None. */
    method JoinThread(id: int) returns (r: Option<int>)
      modifies this`threads
      ensures JoinStep(old(View()), id, View())
      ensures r.Some? <==>
              && IndexOf(old(threads), id) < |old(threads)|
              && old(threads)[IndexOf(old(threads), id)].state == Zombie
      ensures r.Some? ==> r.value == old(threads)[IndexOf(old(threads), id)].ret
    {
      var i := 0;
      while i < |threads| && threads[i].id != id
        invariant i <= |threads|
        invariant forall j :: 0 <= j < i ==> threads[j].id != id
      {
        i := i + 1;
      }
      if i == |threads| || threads[i].state != Zombie {
        return None;
      }
      r := Some(threads[i].ret);
      threads := threads[i := threads[i].(state := Dead)];
    }

    /** create_new_sthread on the stack and private regions mmap returned. */
    method CreateNew(sc: Sc, stack: nat, writable: nat)
      requires Sound(View()) && lastId < INT_MAX && GrantsOk(View(), sc.mem)
      requires FreshRegions(View(), stack, writable)
      modifies this`mem, this`threads, this`lastId, this`owner
      ensures CreateFresh(old(View()), sc, stack, writable, View())
    {
      ghost var w := View();
      LayoutDistinct(w);
      assert Machine(w);
      hide Machine, LayoutOk, Laid, DistinctIds, DistinctPages, GrantsOk, FreshRegions, Remapping, Copying,
        CreateFresh, Built, FreshOwner, FreshContent;
      ZeroStack(stack, writable, w);
      CopyCheckpoint(stack, writable, w);
      var table := BuildTable(sc.mem, stack, writable, w);
      RemappedIsBuilt(w, sc.mem, stack, writable, table);
      Install(sc, stack, writable, table, w);
      CopiedContent(w, stack, writable, View());
      CreatedFresh(w, sc, stack, writable, table, View());
    }

    /** The new thread takes the next id and goes to the head of the list. */
    method Install(sc: Sc, stack: nat, writable: nat, table: Table, ghost w: World)
      requires View() == w.(mem := mem)
      modifies this`threads, this`lastId, this`owner
      ensures View() == w.(mem := mem, lastId := w.lastId + 1,
                           owner := map p | p in w.owner :: FreshOwner(w, w.lastId + 1, stack, writable, p),
                           threads := [Sthread(w.lastId + 1, Running, 0, sc, stack, writable, table)] + w.threads)
    {
      lastId := lastId + 1;
      threads := [Sthread(lastId, Running, 0, sc, stack, writable, table)] + threads;
      owner := map p | p in w.owner :: FreshOwner(w, w.lastId + 1, stack, writable, p);
    }

    /** The anonymous mapping of the stack: fresh pages are zero. */
    method ZeroStack(stack: nat, writable: nat, ghost w: World)
      requires Machine(w) && View() == w && FreshRegions(w, stack, writable)
      modifies this`mem
      ensures Copying(w, stack, writable, 0, mem)
    {
      var k := 0;
      while k < STACK_PAGES
        invariant k <= STACK_PAGES && mem.Keys == w.mem.Keys
        invariant forall p :: p in w.pgroot ==>
                    mem[w.pgroot[p].frame] == (if Within(p, stack, k) then ZeroPage() else Content(w, p))
      {
        assert stack + k in w.pgroot;
        assert forall p :: p in w.pgroot && p != stack + k ==> Apart(p, stack + k);
        mem := mem[pgroot[stack + k].frame := ZeroPage()];
        k := k + 1;
      }
    }

    /** memcpy(st_writable, _checkpointed_mem, _checkpointed_size). */
    method CopyCheckpoint(stack: nat, writable: nat, ghost w: World)
      requires Machine(w) && View() == w.(mem := mem) && FreshRegions(w, stack, writable)
      requires w.pages == WritablePages(segs) && Copying(w, stack, writable, 0, mem)
      modifies this`mem
      ensures Copying(w, stack, writable, |w.pages|, mem)
    {
      hide Machine, FreshRegions, Copying;
      var k := 0;
      var size := |WritablePages(segs)|;
      while k < size
        invariant k <= size && Copying(w, stack, writable, k, mem)
      {
        CopyingStep(w, stack, writable, k, mem);
        mem := mem[pgroot[writable + k].frame := mem[pgroot[ckpt + k].frame]];
        k := k + 1;
      }
    }

    /** dune_vm_clone, walk_protect over every page, walk_remap over the writable segments. */
    method BuildTable(words: seq<nat>, stack: nat, writable: nat, ghost w: World) returns (table: Table)
      requires Machine(w) && View() == w.(mem := mem) && FreshRegions(w, stack, writable)
      requires w.pages == WritablePages(segs) && DistinctPages(w.pages)
      ensures Remapping(w, words, stack, writable, |w.pages|, table)
    {
      table := ProtectAll(words, stack);
      assert Remapping(w, words, stack, writable, 0, table);
      hide Machine, Remapping, DistinctPages, FreshRegions;
      var n, walk := 0, 0;
      while n < |segs|
        invariant n <= |segs| && walk == OffsetOf(segs, n) == |WritablePages(segs[..n])| <= |w.pages|
        invariant Remapping(w, words, stack, writable, walk, table)
      {
        WritablePagesStep(segs, n);
        OffsetIsPrefixLength(segs, n + 1);
        if segs[n].writable {
          walk, table := RemapSegment(words, stack, writable, n, walk, table, w);
        }
        n := n + 1;
      }
      assert segs[..|segs|] == segs;
    }

    method ProtectAll(words: seq<nat>, stack: nat) returns (table: Table)
      ensures table.Keys == pgroot.Keys
      ensures forall p :: p in table ==> table[p] == Protected(pgroot[p], segs, words, stack, p)
    {
      table := pgroot;
      var rest := pgroot.Keys;
      while rest != {}
        invariant rest <= pgroot.Keys && table.Keys == pgroot.Keys
        invariant forall p :: p in rest ==> table[p] == pgroot[p]
        invariant forall p :: p in table && p !in rest ==> table[p] == Protected(pgroot[p], segs, words, stack, p)
        decreases rest
      {
        var page :| page in rest;
        var e := WalkProtect(table[page], segs, words, stack, page);
        table := table[page := e];
        rest := rest - {page};
      }
    }

    method RemapSegment(words: seq<nat>, stack: nat, writable: nat, n: nat, walk0: nat, table0: Table, ghost w: World)
      returns (walk: nat, table: Table)
      requires Machine(w) && View() == w.(mem := mem) && FreshRegions(w, stack, writable)
      requires w.pages == WritablePages(segs) && DistinctPages(w.pages)
      requires n < |segs| && segs[n].writable && walk0 == OffsetOf(segs, n) <= |w.pages|
      requires Remapping(w, words, stack, writable, walk0, table0)
      ensures walk == walk0 + segs[n].pages <= |w.pages| && Remapping(w, words, stack, writable, walk, table)
    {
      hide Machine, Remapping, DistinctPages, FreshRegions;
      walk, table := walk0, table0;
      var j := 0;
      while j < segs[n].pages
        invariant j <= segs[n].pages && walk == walk0 + j <= |w.pages|
        invariant Remapping(w, words, stack, writable, walk, table)
      {
        OffsetIsPrefixSum(segs, n, j);
        RemapPages(w, stack, writable, walk);
        RemappingStep(w, words, stack, writable, walk, table);
        table := table[segs[n].start + j := Pte(pgroot[writable + walk].frame, true, true, true, false)];
        walk, j := walk + 1, j + 1;
      }
    }

    /** sthread_create: reuse the first dead thread with the same sc_mem, or build a new one. */
    method CreateThread(sc: Sc, stack: nat, writable: nat) returns (id: int)
      requires Sound(View()) && GrantsOk(View(), sc.mem)
      requires ReusableIndex(threads, sc.mem) == |threads| ==> lastId < INT_MAX && FreshRegions(View(), stack, writable)
      modifies this`mem, this`threads, this`lastId, this`owner
      ensures Next(old(View()), Create(sc, stack, writable), View())
      ensures IndexOf(threads, id) < |threads| && threads[IndexOf(threads, id)].state == Running
      ensures threads[IndexOf(threads, id)].sc == sc
      ensures var i := IndexOf(old(threads), id);
              if i == |old(threads)| then id == old(lastId) + 1
              else old(threads)[i].state == Dead && old(threads)[i].sc.mem == sc.mem
    {
      hide GrantsOk, FreshRegions, CreateFresh, Machine, LayoutOk, Laid, DistinctIds;
      var i := 0;
      while i < |threads| && !(threads[i].state == Dead && threads[i].sc.mem == sc.mem)
        invariant i <= |threads|
        invariant forall j :: 0 <= j < i ==> !(threads[j].state == Dead && threads[j].sc.mem == sc.mem)
      {
        i := i + 1;
      }
      assert i == ReusableIndex(threads, sc.mem);
      if i == |threads| {
        CreateNew(sc, stack, writable);
        NewThreadFirst(old(View()), sc, stack, writable, View());
        id := threads[0].id;
      } else {
        ReusedThread(View(), i, threads[i].(sc := sc, state := Running));
        id := threads[i].id;
        threads := threads[i := threads[i].(sc := sc, state := Running)];
      }
    }
  }

  /** The parts of create_new_sthread make up the step. */
  lemma CreatedFresh(w: World, sc: Sc, stack: nat, writable: nat, table: Table, w': World)
    requires Machine(w) && w.lastId < INT_MAX && GrantsOk(w, sc.mem) && FreshRegions(w, stack, writable)
    requires Built(table, w.pgroot, w.segs, w.pages, sc.mem, stack, writable)
    requires forall k :: 0 <= k < |w.pages| ==> w.pages[k] in table && !table[w.pages[k]].dirty
    requires forall p :: p in w.pgroot ==> w.pgroot[p].frame in w'.mem
    requires w'.pgroot == w.pgroot
    requires forall p {:trigger Content(w', p)} :: p in w.pgroot ==>
               Content(w', p) == FreshContent(w, stack, writable, p)
    requires w' == w.(mem := w'.mem, owner := map p | p in w.owner :: FreshOwner(w, w.lastId + 1, stack, writable, p),
                      lastId := w.lastId + 1,
                      threads := [Sthread(w.lastId + 1, Running, 0, sc, stack, writable, table)] + w.threads)
    ensures CreateFresh(w, sc, stack, writable, w')
  {
    hide Built, FreshRegions, GrantsOk, FramesOk, SegmentsOk, CheckpointOk, Content, FreshContent, FreshOwner;
    assert w'.threads[0] == Sthread(w.lastId + 1, Running, 0, sc, stack, writable, table);
  }

  lemma CopiedContent(w: World, stack: nat, writable: nat, w': World)
    requires Machine(w) && w'.pgroot == w.pgroot && Copying(w, stack, writable, |w.pages|, w'.mem)
    ensures forall p :: p in w.pgroot ==> w.pgroot[p].frame in w'.mem
    ensures forall p {:trigger Content(w', p)} :: p in w.pgroot ==>
              Content(w', p) == FreshContent(w, stack, writable, p)
  {
    hide SegmentsOk, CheckpointOk;
    forall p {:trigger Content(w', p)} | p in w.pgroot
      ensures Content(w', p) == FreshContent(w, stack, writable, p)
    {
      assert w'.mem[w.pgroot[p].frame] == FreshContent(w, stack, writable, p);
    }
  }

  lemma NewThreadFirst(w: World, sc: Sc, stack: nat, writable: nat, w': World)
    requires Sound(w) && CreateFresh(w, sc, stack, writable, w')
    ensures |w'.threads| > 0 && IndexOf(w'.threads, w'.threads[0].id) == 0
    ensures w'.threads[0].state == Running && w'.threads[0].sc == sc && w'.threads[0].id == w.lastId + 1
    ensures IndexOf(w.threads, w.lastId + 1) == |w.threads|
  {
    hide FramesOk, SegmentsOk, CheckpointOk, GrantsOk, RegionsOk, Built, FreshRegions, LayoutOk, DistinctIds;
    forall i | 0 <= i < |w.threads| ensures w.threads[i].id <= w.lastId { assert Laid(w, w.threads[i]); }
  }

  lemma ReusedThread(w: World, i: nat, t: Sthread)
    requires DistinctIds(w.threads) && i < |w.threads| && t.id == w.threads[i].id
    ensures IndexOf(w.threads[i := t], t.id) == i == IndexOf(w.threads, t.id)
  {
    var r := IndexOf(w.threads[i := t], t.id);
    assert w.threads[i := t][i].id == t.id;
    var q := IndexOf(w.threads, t.id);
    assert q <= i;
  }
}
