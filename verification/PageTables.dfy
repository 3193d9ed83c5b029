/** Pages, page-table entries and segments: the vocabulary of the sthread runtime.
    All regions the runtime handles (segments, stacks, private copies, tags) are page aligned,
    so they are named by page number. */
module PageTables {
  import opened Common

  const STACK_PAGES: nat := 10
  const TAG_PAGES: nat := 10

  type Page = p: seq<byte> | |p| == PGSIZE witness seq(PGSIZE, _ => 0)

  /** A page of anonymous memory, or one cleared with memset. */
  function ZeroPage(): (r: Page)
    ensures forall i :: 0 <= i < PGSIZE ==> r[i] == 0
  {
    seq(PGSIZE, _ => 0)
  }

  /** The bits of a page-table entry the runtime looks at: PTE_ADDR, PTE_P, PTE_W, PTE_U, PTE_D. */
  datatype Pte = Pte(frame: nat, present: bool, write: bool, user: bool, dirty: bool) {
    predicate UserWritable() { present && write && user }
    /** What user code can observe of an entry: everything but the dirty bit. */
    function Access(): Pte { this.(dirty := false) }
  }

  type Table = map<nat, Pte>

  /** A line of /proc/self/maps, in pages. */
  datatype Segment = Segment(start: nat, pages: nat, writable: bool) {
    predicate Has(page: nat) { start <= page < start + pages }
  }

  // ---------- Offsets of writable pages ----------

  function PageRange(start: nat, pages: nat): (r: seq<nat>) {
    seq(pages, (j: nat) => start + j)
  }

  /** The writable pages in list order: position k is the page saved at offset k of the checkpoint. */
  function WritablePages(segs: seq<Segment>): (r: seq<nat>) {
    if segs == [] then []
    else (if segs[0].writable then PageRange(segs[0].start, segs[0].pages) else []) + WritablePages(segs[1..])
  }

  /** The value of the running counter (st_walk, or the pointer c of checkpoint_do) on reaching segment i. */
  function OffsetOf(segs: seq<Segment>, i: nat): (r: nat)
    requires i <= |segs|
  {
    if i == 0 then 0 else OffsetOf(segs, i - 1) + (if segs[i - 1].writable then segs[i - 1].pages else 0)
  }

  ghost predicate Disjoint(segs: seq<Segment>) {
    forall i, j, p :: 0 <= i < j < |segs| && segs[i].Has(p) ==> !segs[j].Has(p)
  }

  /** The first segment of the list that contains the page, as walk_protect searches for it. */
  function SegmentOf(segs: seq<Segment>, page: nat): (r: Option<Segment>) {
    if segs == [] then None
    else if segs[0].Has(page) then Some(segs[0])
    else SegmentOf(segs[1..], page)
  }

  lemma {:induction false} SegmentOfFinds(segs: seq<Segment>, page: nat)
    ensures SegmentOf(segs, page).Some? <==> exists i :: 0 <= i < |segs| && segs[i].Has(page)
    ensures SegmentOf(segs, page).Some? ==>
              SegmentOf(segs, page).value in segs && SegmentOf(segs, page).value.Has(page)
  {
    if segs != [] {
      SegmentOfFinds(segs[1..], page);
      assert forall i :: 0 < i < |segs| ==> segs[i] == segs[1..][i - 1];
      if segs[0].Has(page) { assert segs[0] in segs; }
    }
  }

  lemma {:induction false} WritablePagesConcat(a: seq<Segment>, b: seq<Segment>)
    ensures WritablePages(a + b) == WritablePages(a) + WritablePages(b)
  {
    if a == [] {
      assert a + b == b;
    } else {
      assert (a + b)[1..] == a[1..] + b;
      WritablePagesConcat(a[1..], b);
    }
  }

  /** One step of the walk over the segment list. */
  lemma WritablePagesStep(segs: seq<Segment>, i: nat)
    requires i < |segs|
    ensures WritablePages(segs[..i + 1])
         == WritablePages(segs[..i]) + (if segs[i].writable then PageRange(segs[i].start, segs[i].pages) else [])
    ensures |WritablePages(segs[..i + 1])| <= |WritablePages(segs)|
    ensures WritablePages(segs[..i + 1]) <= WritablePages(segs)
  {
    assert segs[..i + 1] == segs[..i] + [segs[i]];
    WritablePagesConcat(segs[..i], [segs[i]]);
    assert WritablePages([segs[i]]) == (if segs[i].writable then PageRange(segs[i].start, segs[i].pages) else []) + [];
    assert segs == segs[..i + 1] + segs[i + 1..];
    WritablePagesConcat(segs[..i + 1], segs[i + 1..]);
  }

  lemma {:induction false} OffsetIsPrefixLength(segs: seq<Segment>, i: nat)
    requires i <= |segs|
    ensures OffsetOf(segs, i) == |WritablePages(segs[..i])|
  {
    if i > 0 {
      OffsetIsPrefixLength(segs, i - 1);
      WritablePagesStep(segs, i - 1);
    }
  }

  /** Every walk gives page j of writable segment i the same offset, the sum of the earlier writable
      lengths plus j; the offsets stay below the checkpoint's size. */
  lemma OffsetIsPrefixSum(segs: seq<Segment>, i: nat, j: nat)
    requires i < |segs| && segs[i].writable && j < segs[i].pages
    ensures OffsetOf(segs, i) + j < OffsetOf(segs, |segs|) == |WritablePages(segs)|
    ensures WritablePages(segs)[OffsetOf(segs, i) + j] == segs[i].start + j
  {
    OffsetIsPrefixLength(segs, i);
    OffsetIsPrefixLength(segs, i + 1);
    OffsetIsPrefixLength(segs, |segs|);
    assert segs[..|segs|] == segs;
    WritablePagesStep(segs, i);
  }

  /** ... and they tile it: every offset below the size belongs to a page of a writable segment. */
  lemma {:induction false} OffsetsTile(segs: seq<Segment>, k: nat) returns (i: nat, j: nat)
    requires k < |WritablePages(segs)|
    ensures i < |segs| && segs[i].writable && j < segs[i].pages
    ensures OffsetOf(segs, i) + j == k && WritablePages(segs)[k] == segs[i].start + j
  {
    i := 0;
    assert segs[..0] == [];
    while i < |segs| && |WritablePages(segs[..i + 1])| <= k
      invariant i <= |segs|
      invariant |WritablePages(segs[..i])| <= k
      decreases |segs| - i
    {
      i := i + 1;
    }
    assert segs[..|segs|] == segs;
    WritablePagesStep(segs, i);
    OffsetIsPrefixLength(segs, i);
    j := k - OffsetOf(segs, i);
  }

  /** Distinct offsets hold distinct pages. */
  lemma OffsetsInjective(segs: seq<Segment>, k: nat, l: nat)
    requires Disjoint(segs)
    requires k < |WritablePages(segs)| && l < |WritablePages(segs)|
    requires WritablePages(segs)[k] == WritablePages(segs)[l]
    ensures k == l
  {
    var i, j := OffsetsTile(segs, k);
    var m, n := OffsetsTile(segs, l);
    var p := WritablePages(segs)[k];
    assert segs[i].Has(p) && segs[m].Has(p);
  }

  /** The pages of writable segments are exactly the checkpointed ones. */
  lemma WritableIffInWritableSegment(segs: seq<Segment>, p: nat)
    requires Disjoint(segs)
    ensures p in WritablePages(segs) <==> SegmentOf(segs, p).Some? && SegmentOf(segs, p).value.writable
  {
    var s := SegmentOf(segs, p);
    SegmentOfFinds(segs, p);
    if p in WritablePages(segs) {
      var k :| 0 <= k < |WritablePages(segs)| && WritablePages(segs)[k] == p;
      var i, j := OffsetsTile(segs, k);
      assert segs[i].Has(p);
      var m :| 0 <= m < |segs| && segs[m] == s.value;
      assert m == i;
    }
    if s.Some? && s.value.writable {
      var m :| 0 <= m < |segs| && segs[m] == s.value;
      OffsetIsPrefixSum(segs, m, p - s.value.start);
    }
  }
}
