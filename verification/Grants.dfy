/** The grant tables of an sthread: zero-terminated words for memory and descriptors, a bitmap for system calls. */
module Grants {
  import opened Common
  import opened PageTables
  import opened Tags
  import SthreadModel

  const SLOTS: nat := 8
  const SYS_BYTES: nat := 16

  // ---------- Zero-terminated tables ----------

  /** The entries before the first zero. */
  function Live(words: seq<nat>): (r: seq<nat>)
    ensures |r| <= |words| && r == words[..|r|] && 0 !in r
    ensures |r| < |words| ==> words[|r|] == 0
  {
    if words == [] || words[0] == 0 then [] else [words[0]] + Live(words[1..])
  }

  /** Nothing but zeros after the first zero, as in a table built from sc_init by additions. */
  ghost predicate Packed(words: seq<nat>) {
    forall i :: |Live(words)| <= i < |words| ==> words[i] == 0
  }

  lemma {:induction false} LiveIs(words: seq<nat>, n: nat)
    requires n <= |words| && 0 !in words[..n] && (n < |words| ==> words[n] == 0)
    ensures Live(words) == words[..n]
  {
    if n > 0 {
      assert words[0] in words[..n];
      assert words[1..][..n - 1] == words[..n][1..];
      LiveIs(words[1..], n - 1);
    }
  }

  /** Writing a word into the first free slot appends it, or changes nothing if it is zero. */
  lemma LiveAppend(words: seq<nat>, w: nat)
    requires Packed(words) && |Live(words)| < |words|
    ensures Packed(words[|Live(words)| := w])
    ensures Live(words[|Live(words)| := w]) == if w == 0 then Live(words) else Live(words) + [w]
  {
    var n := |Live(words)|;
    var after := words[n := w];
    assert after[..n] == words[..n];
    if w == 0 {
      LiveIs(after, n);
    } else {
      assert after[..n + 1] == words[..n] + [w];
      LiveIs(after, n + 1);
    }
  }

  // ---------- Descriptors ----------

  datatype FdGrant = FdGrant(fd: nat, prot: nat)

  function DecodeFd(word: nat): (r: FdGrant) { FdGrant(word / 256, word % 16) }

  lemma FdRoundTrip(fd: nat, prot: nat)
    requires prot < 16
    ensures DecodeFd(fd * 256 + prot) == FdGrant(fd, prot)
  {
    Quotient(fd, prot);
    Low(16 * fd, prot);
  }

  lemma Quotient(k: nat, r: nat)
    requires r < 256
    ensures (k * 256 + r) / 256 == k
  {
  }

  lemma Low(k: nat, r: nat)
    requires r < 16
    ensures (16 * k + r) % 16 == r
  {
  }

  const INT_SIZE: int := 0x8000_0000

  /** A 32-bit int shifted left by 8, as a 64-bit word. */
  function Shifted(fd: int): (r: nat) {
    var x := fd * 256 % 0x1_0000_0000;
    if x < INT_SIZE then x else x + WORD - 0x1_0000_0000
  }

  /** The stored word gives back the descriptor exactly when it has at most 23 bits. */
  lemma ShiftKept(fd: int, prot: nat)
    requires -INT_SIZE <= fd < INT_SIZE && prot < 16
    ensures (Shifted(fd) + prot) % 16 == prot
    ensures (Shifted(fd) + prot) / 256 == fd % WORD <==> 0 <= fd < 0x80_0000
    ensures 0 <= fd < 0x80_0000 ==> Shifted(fd) == fd * 256
  {
    ShiftedMultiple(fd);
    var k := Shifted(fd) / 256;
    Quotient(k, prot);
    Low(16 * k, prot);
    if 0 <= fd < 0x80_0000 {
      assert fd * 256 % 0x1_0000_0000 == fd * 256;
    } else if fd < 0 {
      assert fd % WORD == fd + WORD;
    }
  }

  lemma ShiftedMultiple(fd: int)
    requires -INT_SIZE <= fd < INT_SIZE
    ensures Shifted(fd) == 256 * (Shifted(fd) / 256) && Shifted(fd) < WORD
  {
    var q := fd * 256 / 0x1_0000_0000;
    assert fd * 256 % 0x1_0000_0000 == 256 * (fd - q * 0x100_0000);
  }

  function Decoded(words: seq<nat>): (r: seq<FdGrant>)
    ensures |r| == |words| && forall i :: 0 <= i < |r| ==> r[i] == DecodeFd(words[i])
  {
    if words == [] then [] else [DecodeFd(words[0])] + Decoded(words[1..])
  }

  lemma DecodedAppend(words: seq<nat>, w: nat)
    ensures Decoded(words + [w]) == Decoded(words) + [DecodeFd(w)]
  {
  }

  /** The first grant for a descriptor. */
  function FirstGrant(gs: seq<FdGrant>, fd: int): (r: Option<FdGrant>) {
    if gs == [] then None else if gs[0].fd == fd then Some(gs[0]) else FirstGrant(gs[1..], fd)
  }

  lemma {:induction false} FirstGrantIs(gs: seq<FdGrant>, fd: int)
    ensures FirstGrant(gs, fd).None? <==> forall i :: 0 <= i < |gs| ==> gs[i].fd != fd
    ensures forall i :: 0 <= i < |gs| && gs[i].fd == fd && (forall j :: 0 <= j < i ==> gs[j].fd != fd) ==>
              FirstGrant(gs, fd) == Some(gs[i])
  {
    if gs != [] {
      FirstGrantIs(gs[1..], fd);
      assert forall i :: 0 < i < |gs| ==> gs[i] == gs[1..][i - 1];
      if gs[0].fd != fd {
        if FirstGrant(gs, fd).None? {
          forall i | 0 <= i < |gs| ensures gs[i].fd != fd { if i > 0 { assert gs[i] == gs[1..][i - 1]; } }
        }
        forall i | 0 <= i < |gs| && gs[i].fd == fd && (forall j :: 0 <= j < i ==> gs[j].fd != fd)
          ensures FirstGrant(gs, fd) == Some(gs[i])
        {
          assert gs[1..][i - 1] == gs[i];
          assert forall j :: 0 <= j < i - 1 ==> gs[1..][j] == gs[j + 1];
        }
      }
    }
  }

  /** A descriptor granted once with PROT_READ, PROT_WRITE or both can be used in exactly those directions. */
  lemma FdDirections(fd: nat, prot: nat)
    requires 1 <= prot <= 3
    ensures var g := FirstGrant([FdGrant(fd, prot)], fd);
            && g.Some? && (HasBit(g.value.prot, false) <==> prot == 1 || prot == 3)
            && (HasBit(g.value.prot, true) <==> prot == 2 || prot == 3)
  {
  }

  /** PROT_READ is bit 0 and PROT_WRITE bit 1 of a grant. */
  predicate HasBit(prot: nat, write: bool) { if write then prot / 2 % 2 == 1 else prot % 2 == 1 }

  // ---------- System calls ----------

  function Bit(k: nat): (r: bv8)
    requires k < 8
  {
    if k == 0 then 1 else if k == 1 then 2 else if k == 2 then 4 else if k == 3 then 8
    else if k == 4 then 16 else if k == 5 then 32 else if k == 6 then 64 else 128
  }

  /** The code neither goes one byte beyond the bitmap nor shifts by a negative amount. */
  predicate Defined(sysno: int) { !(8 * SYS_BYTES <= sysno < 8 * SYS_BYTES + 8) && !(-8 < sysno < 0) }

  predicate Marked(sys: seq<bv8>, n: nat)
    requires |sys| == SYS_BYTES && n < 8 * SYS_BYTES
  {
    sys[n / 8] & Bit(n % 8) != 0
  }

  lemma BitsIndependent(b: bv8, k: nat, j: nat)
    requires k < 8 && j < 8
    ensures (b | Bit(k)) & Bit(j) != 0 <==> j == k || b & Bit(j) != 0
  {
    OrAnd(b, Bit(k), Bit(j));
    if j == k { AndSelf(b, Bit(j)); }
    assert j != k ==> Bit(k) & Bit(j) == 0;
  }

  lemma OrAnd(b: bv8, x: bv8, y: bv8)
    ensures x & y == 0 ==> (b | x) & y == b & y
  {
  }

  lemma AndSelf(b: bv8, x: bv8)
    ensures (b | x) & x == x
  {
  }

  lemma MarkedAfter(sys: seq<bv8>, n: nat, m: nat)
    requires |sys| == SYS_BYTES && n < 8 * SYS_BYTES && m < 8 * SYS_BYTES
    ensures Marked(sys[n / 8 := sys[n / 8] | Bit(n % 8)], m) <==> m == n || Marked(sys, m)
  {
    if m / 8 == n / 8 { BitsIndependent(sys[n / 8], n % 8, m % 8); }
  }

  // ---------- The table ----------

  class Sc {
    var mem: array<nat>
    var fd: array<nat>
    var sys: array<bv8>

    ghost predicate Valid()
      reads this, mem, fd
    {
      && mem != fd && mem.Length == SLOTS && fd.Length == SLOTS && sys.Length == SYS_BYTES
      && Packed(mem[..]) && Packed(fd[..])
    }

    /** The descriptor grants in the order they were added. */
    ghost function FdGrants(): (r: seq<FdGrant>)
      reads this, fd
    {
      Decoded(Live(fd[..]))
    }

    /** sc_init. */
    constructor ()
      ensures Valid() && fresh(mem) && fresh(fd) && fresh(sys)
      ensures Live(mem[..]) == [] && FdGrants() == [] && forall n :: 0 <= n < 8 * SYS_BYTES ==> !Marked(sys[..], n)
    {
      mem := new nat[SLOTS](_ => 0);
      fd := new nat[SLOTS](_ => 0);
      sys := new bv8[SYS_BYTES](_ => 0);
      new;
      forall n | 0 <= n < 8 * SYS_BYTES ensures !Marked(sys[..], n) {
        assert sys[..][n / 8] == 0;
      }
    }

    /** sc_fd_add: a full table, protection bits beyond the low four or a descriptor that the shift does not keep
        abort. */
    method FdAdd(fdNo: int, prot: int) returns (ok: bool)
      requires Valid() && -INT_SIZE <= fdNo < INT_SIZE
      modifies fd
      ensures ok <==> |old(Live(fd[..]))| < 8 && 0 <= prot < 16 && 0 <= fdNo < 0x80_0000
      ensures Valid() && mem[..] == old(mem[..]) && (!ok ==> fd[..] == old(fd[..]))
      ensures ok ==> FdGrants() == old(FdGrants()) + (if fdNo == 0 && prot == 0 then [] else [FdGrant(fdNo, prot)])
    {
      hide Live, Packed, Decoded, DecodeFd;
      ghost var words := fd[..];
      var f := 0;
      while f < fd.Length && fd[f] != 0
        invariant f <= fd.Length && 0 !in fd[..f]
      {
        f := f + 1;
      }
      LiveIs(words, f);
      if f == fd.Length || prot < 0 || prot >= 16 {
        return false;
      }
      var word: nat := Shifted(fdNo) + prot;
      ShiftKept(fdNo, prot);
      if word / 256 != fdNo % WORD || word % 16 != prot {
        return false;
      }
      LiveAppend(words, word);
      FdRoundTrip(fdNo, prot);
      DecodedAppend(Live(words), word);
      fd[f] := word;
      assert fd[..] == words[f := word];
      return true;
    }

    /** has_fd_perm: decided by the first grant for the descriptor alone. */
    method HasFdPerm(fdNo: int, write: bool) returns (ok: bool)
      requires Valid()
      ensures ok <==> FirstGrant(FdGrants(), fdNo).Some? && HasBit(FirstGrant(FdGrants(), fdNo).value.prot, write)
      ensures !write && ok <==> !write && FirstGrant(FdGrants(), fdNo).Some?
                                && FirstGrant(FdGrants(), fdNo).value.prot % 2 == 1
      ensures write && ok <==> write && FirstGrant(FdGrants(), fdNo).Some?
                               && FirstGrant(FdGrants(), fdNo).value.prot / 2 % 2 == 1
    {
      ghost var live := Live(fd[..]);
      ghost var gs := FdGrants();
      var i := 0;
      while i < fd.Length
        invariant i <= |live|
        invariant FirstGrant(gs, fdNo) == FirstGrant(gs[i..], fdNo)
        decreases fd.Length - i
      {
        var f := fd[i];
        if f == 0 {
          return false;
        }
        assert i < |live| && live[i] == f && gs[i] == DecodeFd(f);
        if f / 256 == fdNo {
          return if write then f % 16 / 2 % 2 == 1 else f % 16 % 2 == 1;
        }
        assert gs[i..][1..] == gs[i + 1..];
        i := i + 1;
      }
      return false;
    }

    /** sc_sys_add: a number outside the bitmap aborts. */
    method SysAdd(sysno: int) returns (ok: bool)
      requires Valid() && Defined(sysno)
      modifies sys
      ensures ok <==> 0 <= sysno < 8 * SYS_BYTES
      ensures Valid() && mem[..] == old(mem[..]) && fd[..] == old(fd[..]) && (!ok ==> sys[..] == old(sys[..]))
      ensures ok ==>
                forall n :: 0 <= n < 8 * SYS_BYTES ==> (Marked(sys[..], n) <==> n == sysno || old(Marked(sys[..], n)))
    {
      if sysno < 0 || sysno / 8 > SYS_BYTES {
        return false;
      }
      ghost var before := sys[..];
      forall n | 0 <= n < 8 * SYS_BYTES
        ensures Marked(before[sysno / 8 := before[sysno / 8] | Bit(sysno % 8)], n) <==> n == sysno || Marked(before, n)
      {
        MarkedAfter(before, sysno, n);
      }
      sys[sysno / 8] := sys[sysno / 8] | Bit(sysno % 8);
      assert sys[..] == before[sysno / 8 := before[sysno / 8] | Bit(sysno % 8)];
      return true;
    }

    /** can_do_sys: read, write and the exit call 666 are always allowed; a number outside the bitmap aborts (None). */
    method CanDoSys(sysno: int) returns (r: Option<bool>)
      requires Valid() && Defined(sysno)
      ensures sysno == 666 ==> r == Some(true)
      ensures 0 <= sysno < 8 * SYS_BYTES ==> r == Some(sysno == 0 || sysno == 1 || Marked(sys[..], sysno))
      ensures sysno != 666 && !(0 <= sysno < 8 * SYS_BYTES) ==> r == None
    {
      if sysno == 666 || sysno == 0 || sysno == 1 {
        return Some(true);
      }
      if sysno < 0 || sysno / 8 > SYS_BYTES {
        return None;
      }
      return Some(sys[sysno / 8] & Bit(sysno % 8) != 0);
    }

    /** sc_mem_add.  An unknown tag, a full table, a region whose address has low bits or protection bits beyond the
        low four abort. */
    method MemAdd(tags: seq<Tag>, tid: int, prot: int) returns (ok: bool)
      requires Valid() && forall i :: 0 <= i < |tags| ==> tags[i].buf > 0
      modifies mem
      ensures ok <==> RegionOf(tags, tid).Some? && RegionOf(tags, tid).value % 16 == 0
                      && |old(Live(mem[..]))| < 8 && 0 <= prot < 16
      ensures Valid() && fd[..] == old(fd[..]) && (!ok ==> mem[..] == old(mem[..]))
      ensures ok ==> Live(mem[..]) == old(Live(mem[..])) + [RegionOf(tags, tid).value + prot]
    {
      var t := 0;
      while t < |tags| && tags[t].id != tid
        invariant t <= |tags|
        invariant RegionOf(tags, tid) == RegionOf(tags[t..], tid)
      {
        assert tags[t..][1..] == tags[t + 1..];
        t := t + 1;
      }
      if t == |tags| {
        return false;
      }
      assert RegionOf(tags, tid) == Some(tags[t].buf);
      hide RegionOf;
      var buf := tags[t].buf;
      ghost var words := mem[..];
      var p := 0;
      while p < mem.Length && mem[p] != 0
        invariant p <= mem.Length && 0 !in mem[..p]
      {
        p := p + 1;
      }
      LiveIs(words, p);
      if p == mem.Length || buf % 16 != 0 || prot < 0 || prot >= 16 {
        return false;
      }
      var word: nat := buf + prot;
      LiveAppend(words, word);
      mem[p] := word;
      assert mem[..] == words[p := word];
      return true;
    }
  }

  /** The region of the first tag with this id. */
  function RegionOf(tags: seq<Tag>, tid: int): (r: Option<nat>)
    ensures r.None? ==> forall i :: 0 <= i < |tags| ==> tags[i].id != tid
    ensures r.Some? ==> exists i :: 0 <= i < |tags| && tags[i].id == tid && tags[i].buf == r.value
                                    && forall j :: 0 <= j < i ==> tags[j].id != tid
  {
    assert forall i :: 0 < i < |tags| ==> tags[i] == tags[1..][i - 1];
    if tags == [] then None else if tags[0].id == tid then Some(tags[0].buf) else RegionOf(tags[1..], tid)
  }

  // ---------- Grants name whole tags ----------

  /** The pages of a region tag_new mapped. */
  ghost predicate MappedTag(w: SthreadModel.World, base: nat) {
    forall p :: SthreadModel.Within(p, base, TAG_PAGES) ==> p in w.owner && w.owner[p] == SthreadModel.TagPage(base)
  }

  /** A memory word made from a mapped tag. */
  ghost predicate FromTag(w: SthreadModel.World, word: nat) {
    SthreadModel.GrantBase(word) % PGSIZE == 0 && MappedTag(w, SthreadModel.GrantBase(word) / PGSIZE)
  }

  lemma TagNewMaps(w: SthreadModel.World, base: nat, w': SthreadModel.World)
    requires SthreadModel.Machine(w) && SthreadModel.TagNewStep(w, base, w')
    ensures MappedTag(w', base)
  {
  }

  /** The word sc_mem_add stores for a mapped tag is such a word. */
  lemma AddedFromTag(w: SthreadModel.World, buf: nat, prot: nat)
    requires 0 < buf && buf % PGSIZE == 0 && prot < 16 && MappedTag(w, buf / PGSIZE)
    ensures FromTag(w, buf + prot)
  {
    assert buf % 16 == 0;
    MemWordDecodes(buf, prot);
  }

  lemma CoveredPages(word: nat, page: nat)
    requires SthreadModel.GrantBase(word) % PGSIZE == 0 && SthreadModel.Covers(word, page)
    ensures SthreadModel.Within(page, SthreadModel.GrantBase(word) / PGSIZE, TAG_PAGES)
  {
  }

  /** A table all of whose words were added for mapped tags names whole tags, which is what creating a thread asks
      of its grants; the empty table is one. */
  lemma TableGrantsOk(w: SthreadModel.World, words: seq<nat>)
    requires |words| == SLOTS && Packed(words) && forall x :: x in Live(words) ==> FromTag(w, x)
    ensures SthreadModel.GrantsOk(w, words)
  {
    forall x, p {:trigger SthreadModel.Covers(x, p)} | x in words && x != 0 && p in w.owner && SthreadModel.Covers(x, p)
      ensures w.owner[p].TagPage?
    {
      var i :| 0 <= i < |words| && words[i] == x;
      assert Live(words)[i] == x;
      assert FromTag(w, x);
      CoveredPages(x, p);
    }
  }

  /** A memory word gives back the region it was made from and its write bit, as walk_protect reads them. */
  lemma MemWordDecodes(buf: nat, prot: nat)
    requires buf % 16 == 0 && prot < 16
    ensures SthreadModel.GrantBase(buf + prot) == buf
    ensures SthreadModel.GrantsWrite(buf + prot) <==> HasBit(prot, true)
  {
    var q := buf / 16;
    assert buf == 16 * q;
    assert (buf + prot) % 16 == prot;
    WriteBit(q, prot);
  }

  lemma Halve(a: nat, r: nat)
    requires r < 2
    ensures (2 * a + r) / 2 == a
  {
  }

  lemma Odd(a: nat, x: nat)
    ensures (2 * a + x) % 2 == x % 2
  {
  }

  lemma WriteBit(q: nat, prot: nat)
    ensures (16 * q + prot) / 2 % 2 == prot / 2 % 2
  {
    var x := prot / 2;
    assert 16 * q + prot == 2 * (8 * q + x) + prot % 2;
    Halve(8 * q + x, prot % 2);
    Odd(4 * q, x);
  }

  lemma {:induction false} GrantForLive(words: seq<nat>, page: nat)
    ensures SthreadModel.GrantFor(words, page) == SthreadModel.GrantFor(Live(words), page)
  {
    if words != [] && words[0] != 0 {
      GrantForLive(words[1..], page);
      assert Live(words)[1..] == Live(words[1..]);
    }
  }

  /** A page's access is decided by the first added tag that covers it: a later addition changes the answer only for
      pages no earlier tag covers. */
  lemma {:induction false} FirstTagDecides(live: seq<nat>, word: nat, page: nat)
    requires 0 !in live && word != 0
    ensures SthreadModel.GrantFor(live + [word], page) ==
            (if SthreadModel.GrantFor(live, page).Some? then SthreadModel.GrantFor(live, page)
             else if SthreadModel.Covers(word, page) then Some(word) else None)
  {
    if live == [] {
      assert live + [word] == [word];
    } else {
      assert (live + [word])[1..] == live[1..] + [word];
      assert live[0] in live;
      FirstTagDecides(live[1..], word, page);
    }
  }

  /** Likewise for descriptors. */
  lemma {:induction false} FirstFdDecides(gs: seq<FdGrant>, g: FdGrant, fd: int)
    ensures FirstGrant(gs + [g], fd) ==
            (if FirstGrant(gs, fd).Some? then FirstGrant(gs, fd) else if g.fd == fd then Some(g) else None)
  {
    if gs == [] {
      assert gs + [g] == [g];
    } else {
      assert (gs + [g])[1..] == gs[1..] + [g];
      FirstFdDecides(gs[1..], g, fd);
    }
  }
}
