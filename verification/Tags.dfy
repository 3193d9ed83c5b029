/** Tagged memory: tag_new maps a region, smalloc carves blocks off it and never takes them back. */
module Tags {
  import opened Common

  const TAG_SIZE: nat := 40960

  /** buf is the region's address, p the next free byte. */
  datatype Tag = Tag(id: nat, buf: nat, p: nat)

  datatype Block = Block(id: nat, addr: nat, size: nat)

  ghost predicate TagOk(t: Tag) { 0 < t.buf <= t.p <= t.buf + TAG_SIZE < WORD }

  /** The allocation in 64-bit arithmetic: NULL when the offset plus the size exceeds the region. */
  function Alloc(t: Tag, size: nat): (r: (Option<nat>, Tag))
    requires t.buf <= t.p
  {
    if (t.p - t.buf + size) % WORD > TAG_SIZE then (None, t) else (Some(t.p), t.(p := (t.p + size) % WORD))
  }

  /** NULL means too little space left, exactly for the sizes whose sum with the offset does not wrap; for the
      others the request succeeds although the region is too small. */
  lemma NullIffFullIffNoWrap(t: Tag, size: nat)
    requires TagOk(t) && size < WORD
    ensures (Alloc(t, size).0.None? <==> t.p - t.buf + size > TAG_SIZE) <==> t.p - t.buf + size < WORD
    ensures t.p - t.buf + size < WORD && Alloc(t, size).0.Some? ==>
              TagOk(Alloc(t, size).1) && Alloc(t, size).1.p == t.p + size
  {
    var sum := t.p - t.buf + size;
    if sum < WORD {
      assert sum % WORD == sum;
      if sum <= TAG_SIZE { assert (t.p + size) % WORD == t.p + size; }
    } else {
      assert sum % WORD == sum - WORD;
    }
  }

  /** A wrapping size rewinds the tag, and the next block overlaps an earlier one. */
  lemma WrappingSizeOverlaps() returns (t: Tag)
    ensures TagOk(t)
    ensures var (a, t1) := Alloc(t, 16);
            t1.buf <= t1.p && var (b, t2) := Alloc(t1, WORD - 16);
            t2.buf <= t2.p && b.Some? && a.Some? && Alloc(t2, 16).0 == a
  {
    t := Tag(0, 4096, 4096);
  }

  ghost predicate Disjoint(a: Block, b: Block) { a.addr + a.size <= b.addr || b.addr + b.size <= a.addr }

  ghost predicate Apart(a: Tag, b: Tag) { a.buf + TAG_SIZE <= b.buf || b.buf + TAG_SIZE <= a.buf }

  /** A block lies in the used part of its tag's region. */
  ghost predicate Housed(tags: seq<Tag>, b: Block) {
    exists i :: 0 <= i < |tags| && tags[i].id == b.id && tags[i].buf <= b.addr && b.addr + b.size <= tags[i].p
  }

  /** Tags have distinct ids and regions; blocks lie in their tags' regions and never overlap. */
  ghost predicate Sound(tags: seq<Tag>, nextId: nat, blocks: seq<Block>) {
    && (forall i :: 0 <= i < |tags| ==> TagOk(tags[i]) && tags[i].id < nextId)
    && (forall i, j :: 0 <= i < j < |tags| ==> tags[i].id != tags[j].id && Apart(tags[i], tags[j]))
    && (forall k :: 0 <= k < |blocks| ==> Housed(tags, blocks[k]))
    && (forall k, l :: 0 <= k < l < |blocks| ==> Disjoint(blocks[k], blocks[l]))
  }

  class Store {
    var tags: seq<Tag>
    var nextId: nat
    ghost var blocks: seq<Block>

    ghost predicate Valid()
      reads this
    {
      Sound(tags, nextId, blocks)
    }

    constructor ()
      ensures Valid() && tags == [] && blocks == []
    {
      tags, nextId, blocks := [], 0, [];
    }

    /** tag_new; mmap returns a region apart from those of all other tags. */
    method TagNew(buf: nat) returns (id: nat)
      requires Valid() && 0 < buf && buf + TAG_SIZE < WORD
      requires forall i :: 0 <= i < |tags| ==> Apart(Tag(0, buf, buf), tags[i])
      modifies this
      ensures Valid() && tags == [Tag(id, buf, buf)] + old(tags) && blocks == old(blocks)
      ensures forall i :: 0 <= i < |old(tags)| ==> old(tags)[i].id != id
    {
      id := nextId;
      nextId := nextId + 1;
      tags := [Tag(id, buf, buf)] + tags;
      assert forall i :: 0 < i < |tags| ==> tags[i] == old(tags)[i - 1];
      forall k | 0 <= k < |blocks| ensures Housed(tags, blocks[k]) {
        assert Housed(old(tags), blocks[k]);
        var i :| 0 <= i < |old(tags)| && old(tags)[i].id == blocks[k].id && old(tags)[i].buf <= blocks[k].addr
                 && blocks[k].addr + blocks[k].size <= old(tags)[i].p;
        assert tags[i + 1] == old(tags)[i];
      }
    }

    /** smalloc.  For sizes that do not wrap: NULL exactly for an unknown tag or too little space, and otherwise a new
        block that is disjoint from every block handed out before, all in the regions of their tags.  A size that
        wraps in a known tag always succeeds, and exactly then blocks overlap or leave their regions. */
    method Smalloc(tid: int, size: nat) returns (r: Option<nat>)
      requires Valid() && size < WORD
      modifies this`tags, this`blocks
      ensures Valid() <==> !Wraps(old(tags), tid, size)
      ensures !Wraps(old(tags), tid, size) ==> (r.Some? <==> Fits(old(tags), tid, size))
      ensures Wraps(old(tags), tid, size) ==> r.Some?
      ensures r.None? ==> tags == old(tags) && blocks == old(blocks)
      ensures r.Some? ==> tid >= 0 && blocks == old(blocks) + [Block(tid, r.value, size)]
      ensures SameRegions(old(tags), tags)
    {
      var i := 0;
      while i < |tags| && tags[i].id != tid
        invariant i <= |tags|
        invariant forall j :: 0 <= j < i ==> tags[j].id != tid
      {
        i := i + 1;
      }
      if i == |tags| {
        return None;
      }
      OneTag(tags, nextId, blocks, i, size);
      NullIffFullIffNoWrap(tags[i], size);
      var (p, t) := Alloc(tags[i], size);
      if p.None? {
        return None;
      }
      ghost var b := Block(tid, p.value, size);
      if Wraps(tags, tid, size) {
        UnsoundAfter(tags, nextId, blocks, i, t, b);
      } else {
        SoundAfter(tags, nextId, blocks, i, t, b);
      }
      hide Sound, TagOk, Alloc, Wraps, Fits;
      tags := tags[i := t];
      blocks := blocks + [b];
      return p;
    }
  }

  /** The offset of a tag with this id plus the size exceeds 64 bits. */
  ghost predicate Wraps(tags: seq<Tag>, tid: int, size: nat) {
    exists i :: 0 <= i < |tags| && tags[i].id == tid && tags[i].p - tags[i].buf + size >= WORD
  }

  ghost predicate Fits(tags: seq<Tag>, tid: int, size: nat) {
    exists i :: 0 <= i < |tags| && tags[i].id == tid && tags[i].p + size <= tags[i].buf + 40960
  }

  ghost predicate SameRegions(a: seq<Tag>, b: seq<Tag>) {
    |a| == |b| && forall i :: 0 <= i < |a| ==> a[i].id == b[i].id && a[i].buf == b[i].buf
  }

  /** There is one tag with an id. */
  lemma OneTag(tags: seq<Tag>, nextId: nat, blocks: seq<Block>, i: nat, size: nat)
    requires Sound(tags, nextId, blocks) && i < |tags|
    ensures Wraps(tags, tags[i].id, size) <==> tags[i].p - tags[i].buf + size >= WORD
    ensures Fits(tags, tags[i].id, size) <==> tags[i].p + size <= tags[i].buf + TAG_SIZE
  {
    assert forall j :: 0 <= j < |tags| && tags[j].id == tags[i].id ==> j == i;
  }

  /** After a size that wrapped the new block ends beyond the used part of its tag. */
  lemma UnsoundAfter(tags: seq<Tag>, nextId: nat, blocks: seq<Block>, i: nat, t: Tag, b: Block)
    requires Sound(tags, nextId, blocks) && i < |tags|
    requires b == Block(tags[i].id, tags[i].p, b.size) && b.size < WORD
    requires t == tags[i].(p := (tags[i].p + b.size) % WORD)
    requires tags[i].p - tags[i].buf + b.size >= WORD
    ensures !Sound(tags[i := t], nextId, blocks + [b])
  {
    var after, all := tags[i := t], blocks + [b];
    assert (tags[i].p + b.size) % WORD == tags[i].p + b.size - WORD;
    assert !Housed(after, b);
    assert all[|blocks|] == b;
  }

  lemma SoundAfter(tags: seq<Tag>, nextId: nat, blocks: seq<Block>, i: nat, t: Tag, b: Block)
    requires Sound(tags, nextId, blocks)
    requires i < |tags| && b == Block(tags[i].id, tags[i].p, b.size)
    requires t == tags[i].(p := tags[i].p + b.size) && TagOk(t)
    ensures Sound(tags[i := t], nextId, blocks + [b])
  {
    NewBlock(tags, blocks, i, t, b);
  }

  /** The block cut off at p is disjoint from every block housed so far, and all stay housed. */
  lemma NewBlock(tags: seq<Tag>, blocks: seq<Block>, i: nat, t: Tag, b: Block)
    requires i < |tags| && b == Block(tags[i].id, tags[i].p, b.size)
    requires t == tags[i].(p := tags[i].p + b.size) && TagOk(t)
    requires forall j :: 0 <= j < |tags| ==> TagOk(tags[j])
    requires forall j, k :: 0 <= j < k < |tags| ==> tags[j].id != tags[k].id && Apart(tags[j], tags[k])
    requires forall k :: 0 <= k < |blocks| ==> Housed(tags, blocks[k])
    ensures forall k :: 0 <= k < |blocks| ==> Housed(tags[i := t], blocks[k]) && Disjoint(blocks[k], b)
    ensures Housed(tags[i := t], b)
  {
    var after := tags[i := t];
    assert after[i].id == b.id;
    forall k | 0 <= k < |blocks| ensures Housed(after, blocks[k]) && Disjoint(blocks[k], b) {
      var j :| 0 <= j < |tags| && tags[j].id == blocks[k].id && tags[j].buf <= blocks[k].addr
               && blocks[k].addr + blocks[k].size <= tags[j].p;
      assert after[j].id == blocks[k].id;
      if j != i { assert Apart(tags[j], tags[i]) || Apart(tags[i], tags[j]); }
    }
  }
}
