/** setup_arguments and its helpers: the code that writes the initial stack through moving pointers. */
module StackBuilder {
  import opened Common
  import opened StackImage

  /** A pointer of argv or envv; the strings live outside the new stack. */
  datatype Ptr = Null | Str(addr: nat, s: seq<byte>)

  datatype ElfData = ElfData(entry: nat, phdr: nat, phnum: nat)

  /** A NULL-terminated pointer array. */
  ghost predicate Terminated(v: seq<Ptr>) {
    |v| > 0 && v[|v| - 1].Null? && forall i :: 0 <= i < |v| - 1 ==> v[i].Str? && NoNul(v[i].s)
  }

  function Strs(v: seq<Ptr>): (r: seq<seq<byte>>)
    ensures Terminated(v) ==> |r| == |v| - 1 && forall i :: 0 <= i < |r| ==> r[i] == v[i].s
  {
    if v == [] || v[0].Null? then [] else [v[0].s] + Strs(v[1..])
  }

  /** Each string starts right after the NUL of the one before, as the kernel lays them out. */
  ghost predicate Contiguous(v: seq<Ptr>)
    requires Terminated(v)
  {
    forall i :: 0 <= i < |v| - 2 ==> v[i + 1].addr == v[i].addr + |v[i].s| + 1
  }

  lemma {:induction false} ContiguousAddress(v: seq<Ptr>, i: nat)
    requires Terminated(v) && Contiguous(v) && i < |v| - 1
    ensures v[i].addr == v[0].addr + |Bytes(Strs(v)[..i])|
  {
    if i > 0 {
      ContiguousAddress(v, i - 1);
      var s := Strs(v);
      assert s[..i] == s[..i - 1] + [s[i - 1]];
      BytesConcat(s[..i - 1], [s[i - 1]]);
      assert Bytes([s[i - 1]]) == s[i - 1] + [0] + Bytes([s[i - 1]][1..]);
    }
  }

  /** From the first byte of the first string to the NUL of the last, in 64-bit arithmetic. */
  function Span(v: seq<Ptr>): (r: nat)
    requires |v| > 1 ==> v[0].Str? && v[|v| - 2].Str?
  {
    if |v| <= 1 then 0 else var last := v[|v| - 2]; (last.addr + |last.s| - v[0].addr + 1) % WORD
  }

  /** The span is the total size of the strings. */
  ghost predicate Measured(v: seq<Ptr>)
    requires Terminated(v)
  {
    Span(v) == |Bytes(Strs(v))|
  }

  /** Contiguous strings that fit into memory are measured by their span. */
  lemma ContiguousMeasured(v: seq<Ptr>)
    requires Terminated(v) && Contiguous(v) && |Bytes(Strs(v))| < WORD
    ensures Measured(v)
  {
    var n, s := |v| - 1, Strs(v);
    if n == 0 {
      assert s == [];
    } else {
      ContiguousAddress(v, n - 1);
      assert s == s[..n - 1] + [s[n - 1]];
      hide Bytes, Contiguous, Strs;
      OneMore(s[..n - 1], s[n - 1]);
      SmallMod(|Bytes(s)|);
      assert v[n - 1].addr + |v[n - 1].s| - v[0].addr + 1 == |Bytes(s)|;
    }
  }

  lemma SmallMod(x: nat)
    requires x < WORD
    ensures x % WORD == x
  {
  }

  /** count_args: the number of strings and their span. */
  method CountArgs(v: seq<Ptr>) returns (argc: nat, arglen: nat)
    requires Terminated(v)
    ensures argc == |Strs(v)| && arglen == Span(v)
  {
    argc := 0;
    while v[argc].Str?
      invariant argc < |v|
      decreases |v| - argc
    {
      argc := argc + 1;
    }
    assert argc == |v| - 1;
    if argc == 0 {
      return 0, 0;
    }
    arglen := (v[argc - 1].addr + |v[argc - 1].s| - v[0].addr + 1) % WORD;
  }

  // ---------- Auxiliary entries ----------

  /** The first entry of a type, before the terminating zero type. */
  function Lookup(aux: seq<Aux>, kind: nat): (r: Option<nat>) {
    if aux == [] || aux[0].kind == 0 then None
    else if aux[0].kind == kind then Some(aux[0].value)
    else Lookup(aux[1..], kind)
  }

  /** The value of the first entry of the kind, with no entry of kind zero before it. */
  ghost predicate FirstOf(ref: seq<Aux>, kind: nat, value: nat) {
    exists i :: 0 <= i < |ref| && ref[i] == Aux(kind, value) && kind != 0
                && forall j :: 0 <= j < i ==> ref[j].kind != kind && ref[j].kind != 0
  }

  lemma {:induction false} LookupIs(ref: seq<Aux>, kind: nat)
    ensures Lookup(ref, kind).Some? ==> FirstOf(ref, kind, Lookup(ref, kind).value)
    ensures forall value: nat :: FirstOf(ref, kind, value) ==> Lookup(ref, kind) == Some(value)
  {
    if ref != [] && ref[0].kind != 0 {
      var rest := ref[1..];
      LookupIs(rest, kind);
      if ref[0].kind == kind {
        assert ref[0] == Aux(kind, ref[0].value);
      } else {
        if Lookup(rest, kind).Some? {
          var value := Lookup(rest, kind).value;
          var i :| 0 <= i < |rest| && rest[i] == Aux(kind, value) && kind != 0
                   && forall j :: 0 <= j < i ==> rest[j].kind != kind && rest[j].kind != 0;
          assert ref[i + 1] == Aux(kind, value);
          forall j | 0 <= j < i + 1 ensures ref[j].kind != kind && ref[j].kind != 0 {
            if j > 0 { assert ref[j] == rest[j - 1]; }
          }
        }
        forall value: nat | FirstOf(ref, kind, value) ensures Lookup(ref, kind) == Some(value) {
          var i :| 0 <= i < |ref| && ref[i] == Aux(kind, value) && kind != 0
                   && forall j :: 0 <= j < i ==> ref[j].kind != kind && ref[j].kind != 0;
          assert rest[i - 1] == Aux(kind, value);
          forall j | 0 <= j < i - 1 ensures rest[j].kind != kind && rest[j].kind != 0 {
            assert rest[j] == ref[j + 1];
          }
        }
      }
    }
  }

  /** find_aux_entry. */
  method FindAuxEntry(aux: seq<Aux>, kind: nat) returns (r: Option<nat>)
    ensures r == Lookup(aux, kind)
    ensures r.Some? ==> FirstOf(aux, kind, r.value)
    ensures r.None? ==> forall value: nat :: !FirstOf(aux, kind, value)
  {
    LookupIs(aux, kind);
    hide FirstOf;
    var i := 0;
    while i < |aux| && aux[i].kind != 0
      invariant i <= |aux| && Lookup(aux, kind) == Lookup(aux[i..], kind)
    {
      if aux[i].kind == kind {
        return Some(aux[i].value);
      }
      assert aux[i..][1..] == aux[i + 1..];
      i := i + 1;
    }
    return None;
  }

  const AT_PHDR := 3
  const AT_PHNUM := 5
  const AT_PAGESZ := 6
  const AT_FLAGS := 8
  const AT_ENTRY := 9
  const AT_UID := 11
  const AT_EUID := 12
  const AT_GID := 13
  const AT_EGID := 14
  const AT_HWCAP := 16
  const AT_CLKTCK := 17
  const AT_SECURE := 23
  const AT_RANDOM := 25

  /** The types setup_aux writes, in order. */
  function Kinds(): (r: seq<nat>)
    ensures |r| == NUM_AUX && forall i :: 0 <= i < |r| ==> 0 < r[i] < WORD
  {
    [AT_HWCAP, AT_PAGESZ, AT_CLKTCK, AT_PHDR, AT_PHNUM, AT_FLAGS, AT_ENTRY, AT_UID, AT_EUID, AT_GID, AT_EGID,
     AT_SECURE, AT_RANDOM]
  }

  /** The value of an entry: from the ELF image, a constant, or copied from the sandbox's own vector. */
  function AuxValue(ref: seq<Aux>, elf: ElfData, kind: nat): (r: Option<nat>) {
    if kind == AT_PHDR || kind == AT_RANDOM then Some(elf.phdr)
    else if kind == AT_PHNUM then Some(elf.phnum)
    else if kind == AT_ENTRY then Some(elf.entry)
    else if kind == AT_SECURE then Some(0)
    else Lookup(ref, kind)
  }

  ghost predicate RefOk(ref: seq<Aux>, elf: ElfData) {
    && elf.entry < WORD && elf.phdr < WORD && elf.phnum < WORD
    && forall i :: 0 <= i < |ref| ==> ref[i].value < WORD
  }

  lemma {:induction false} LookupBounded(ref: seq<Aux>, kind: nat)
    requires forall i :: 0 <= i < |ref| ==> ref[i].value < WORD
    ensures Lookup(ref, kind).Some? ==> Lookup(ref, kind).value < WORD
  {
    if ref != [] {
      assert forall i :: 0 <= i < |ref[1..]| ==> ref[1..][i] == ref[i + 1];
      LookupBounded(ref[1..], kind);
    }
  }

  /** Entry k of the new vector is of the k-th type and has its value. */
  ghost predicate AuxFor(ref: seq<Aux>, elf: ElfData, aux: seq<Aux>) {
    && |aux| <= NUM_AUX
    && forall k :: 0 <= k < |aux| ==> aux[k].kind == Kinds()[k] && AuxValue(ref, elf, Kinds()[k]) == Some(aux[k].value)
  }

  /** The thirteen entries, by position and number: four from the ELF image, 23 (AT_SECURE) with 0, the others copied
      from the first entry of their kind in the sandbox's own vector. */
  ghost predicate AuxLiteral(ref: seq<Aux>, elf: ElfData, aux: seq<Aux>) {
    && |aux| == 13
    && aux[3] == Aux(3, elf.phdr) && aux[4] == Aux(5, elf.phnum) && aux[6] == Aux(9, elf.entry)
    && aux[11] == Aux(23, 0) && aux[12] == Aux(25, elf.phdr)
    && aux[0].kind == 16 && FirstOf(ref, 16, aux[0].value)
    && aux[1].kind == 6 && FirstOf(ref, 6, aux[1].value)
    && aux[2].kind == 17 && FirstOf(ref, 17, aux[2].value)
    && aux[5].kind == 8 && FirstOf(ref, 8, aux[5].value)
    && aux[7].kind == 11 && FirstOf(ref, 11, aux[7].value)
    && aux[8].kind == 12 && FirstOf(ref, 12, aux[8].value)
    && aux[9].kind == 13 && FirstOf(ref, 13, aux[9].value)
    && aux[10].kind == 14 && FirstOf(ref, 14, aux[10].value)
  }

  /** Entry k of the vector is what its number says. */
  lemma AuxEntryIs(ref: seq<Aux>, elf: ElfData, aux: seq<Aux>, k: nat)
    requires AuxFor(ref, elf, aux) && |aux| == NUM_AUX && k < NUM_AUX
    ensures aux[k].kind == Kinds()[k] && AuxValue(ref, elf, Kinds()[k]) == Some(aux[k].value)
    ensures AuxValue(ref, elf, Kinds()[k]) == Lookup(ref, Kinds()[k]) ==> FirstOf(ref, Kinds()[k], aux[k].value)
  {
    LookupIs(ref, Kinds()[k]);
  }

  lemma AuxIsLiteral(ref: seq<Aux>, elf: ElfData, aux: seq<Aux>)
    requires AuxFor(ref, elf, aux) && |aux| == NUM_AUX
    ensures AuxLiteral(ref, elf, aux)
  {
    hide AuxFor, FirstOf, Lookup;
    forall k | 0 <= k < NUM_AUX
      ensures aux[k].kind == Kinds()[k] && AuxValue(ref, elf, Kinds()[k]) == Some(aux[k].value)
      ensures AuxValue(ref, elf, Kinds()[k]) == Lookup(ref, Kinds()[k]) ==> FirstOf(ref, Kinds()[k], aux[k].value)
    {
      AuxEntryIs(ref, elf, aux, k);
    }
    assert aux[0].kind == Kinds()[0] && aux[1].kind == Kinds()[1] && aux[2].kind == Kinds()[2];
    assert aux[3].kind == Kinds()[3] && aux[4].kind == Kinds()[4] && aux[5].kind == Kinds()[5];
    assert aux[6].kind == Kinds()[6] && aux[7].kind == Kinds()[7] && aux[8].kind == Kinds()[8];
    assert aux[9].kind == Kinds()[9] && aux[10].kind == Kinds()[10] && aux[11].kind == Kinds()[11];
    assert aux[12].kind == Kinds()[12];
  }

  /** One of the eight kinds that are copied is not in the sandbox's own vector. */
  ghost predicate MissesOne(ref: seq<Aux>) {
    Missing(ref, 16) || Missing(ref, 6) || Missing(ref, 17) || Missing(ref, 8)
    || Missing(ref, 11) || Missing(ref, 12) || Missing(ref, 13) || Missing(ref, 14)
  }

  ghost predicate Missing(ref: seq<Aux>, kind: nat) { forall value: nat :: !FirstOf(ref, kind, value) }

  lemma MissingIs(ref: seq<Aux>, elf: ElfData)
    ensures MissesOne(ref) <==> exists k :: 0 <= k < NUM_AUX && AuxValue(ref, elf, Kinds()[k]).None?
  {
    hide FirstOf, Lookup, Missing;
    forall kind: nat ensures Missing(ref, kind) <==> Lookup(ref, kind).None? { MissingIff(ref, kind); }
    if MissesOne(ref) {
      assert Kinds()[0] == 16 && Kinds()[1] == 6 && Kinds()[2] == 17 && Kinds()[5] == 8;
      assert Kinds()[7] == 11 && Kinds()[8] == 12 && Kinds()[9] == 13 && Kinds()[10] == 14;
      var k := if Missing(ref, 16) then 0 else if Missing(ref, 6) then 1 else if Missing(ref, 17) then 2
               else if Missing(ref, 8) then 5 else if Missing(ref, 11) then 7 else if Missing(ref, 12) then 8
               else if Missing(ref, 13) then 9 else 10;
      assert AuxValue(ref, elf, Kinds()[k]).None?;
    }
  }

  lemma MissingIff(ref: seq<Aux>, kind: nat)
    ensures Missing(ref, kind) <==> Lookup(ref, kind).None?
  {
    hide FirstOf;
    LookupIs(ref, kind);
  }

  /** The entries setup_aux will write; a type missing from the sandbox's own vector aborts. */
  method AuxEntries(ref: seq<Aux>, elf: ElfData) returns (r: Option<seq<Aux>>)
    requires RefOk(ref, elf)
    ensures r.Some? ==> |r.value| == NUM_AUX && AuxFor(ref, elf, r.value) && AuxOk(r.value)
    ensures r.Some? ==> AuxLiteral(ref, elf, r.value)
    ensures r.None? <==> MissesOne(ref)
    ensures r.None? <==> exists k :: 0 <= k < NUM_AUX && AuxValue(ref, elf, Kinds()[k]).None?
  {
    hide AuxLiteral, MissesOne;
    var kinds := Kinds();
    var aux: seq<Aux> := [];
    while |aux| < NUM_AUX
      invariant AuxFor(ref, elf, aux) && AuxOk(aux)
      decreases NUM_AUX - |aux|
    {
      var kind := kinds[|aux|];
      var value;
      if kind == AT_PHDR || kind == AT_RANDOM {
        value := Some(elf.phdr);
      } else if kind == AT_PHNUM {
        value := Some(elf.phnum);
      } else if kind == AT_ENTRY {
        value := Some(elf.entry);
      } else if kind == AT_SECURE {
        value := Some(0);
      } else {
        value := FindAuxEntry(ref, kind);
        LookupBounded(ref, kind);
      }
      if value.None? {
        MissingIs(ref, elf);
        return None;
      }
      aux := aux + [Aux(kind, value.value)];
    }
    AuxIsLiteral(ref, elf, aux);
    MissingIs(ref, elf);
    return Some(aux);
  }

  // ---------- Memory ----------

  /** A store of consecutive bytes: one word, or what stpcpy copies. */
  method Store(a: array<byte>, at: nat, b: seq<byte>)
    requires at + |b| <= a.Length
    modifies a
    ensures a[..] == Put(old(a[..]), at, b)
  {
    var k := 0;
    while k < |b|
      invariant k <= |b|
      invariant forall i :: 0 <= i < a.Length ==> a[i] == (if at <= i < at + k then b[i - at] else old(a[i]))
    {
      a[at + k] := b[k];
      k := k + 1;
    }
  }

  /** Progress of the build: strings `strs` from d up, words `ws` from r up. */
  function Partial(m: seq<byte>, r: nat, ws: seq<nat>, d: nat, strs: seq<seq<byte>>): (p: seq<byte>)
    requires r + 8 * |ws| <= |m| && d + |Bytes(strs)| <= |m|
    ensures |p| == |m|
  {
    Put(Put(m, d, Bytes(strs)), r, Words(ws))
  }

  lemma PutNext(m: seq<byte>, at: nat, a: seq<byte>, b: seq<byte>)
    requires at + |a| + |b| <= |m|
    ensures Put(Put(m, at, a), at + |a|, b) == Put(m, at, a + b)
  {
  }

  lemma PutCommutes(m: seq<byte>, r: nat, v: seq<byte>, d: nat, b: seq<byte>)
    requires r + |v| <= d && d + |b| <= |m|
    ensures Put(Put(m, r, v), d, b) == Put(Put(m, d, b), r, v)
  {
  }

  lemma OneWord(w: nat)
    ensures Words([w]) == Le(w, 8)
  {
    assert [w][1..] == [];
    assert Words([w]) == Le(w, 8) + Words([]);
  }

  lemma AddWord(m: seq<byte>, r: nat, ws: seq<nat>, d: nat, strs: seq<seq<byte>>, w: nat)
    requires r + 8 * |ws| + 8 <= |m| && d + |Bytes(strs)| <= |m|
    ensures Put(Partial(m, r, ws, d, strs), r + 8 * |ws|, Le(w, 8)) == Partial(m, r, ws + [w], d, strs)
  {
    hide Put, Words, Le, Bytes;
    WordsConcat(ws, [w]);
    OneWord(w);
    PutNext(Put(m, d, Bytes(strs)), r, Words(ws), Le(w, 8));
  }

  lemma AddString(m: seq<byte>, r: nat, ws: seq<nat>, d: nat, strs: seq<seq<byte>>, s: seq<byte>)
    requires r + 8 * |ws| <= d && d + |Bytes(strs)| + |s| + 1 <= |m|
    ensures |Bytes(strs + [s])| == |Bytes(strs)| + |s| + 1
    ensures Put(Partial(m, r, ws, d, strs), d + |Bytes(strs)|, s + [0]) == Partial(m, r, ws, d, strs + [s])
  {
    BytesConcat(strs, [s]);
    assert Bytes([s]) == s + [0] + Bytes([s][1..]) == s + [0];
    PutCommutes(Put(m, d, Bytes(strs)), r, Words(ws), d + |Bytes(strs)|, s + [0]);
    PutNext(m, d, Bytes(strs), s + [0]);
  }

  lemma AddPtr(strs: seq<seq<byte>>, s: seq<byte>, d: nat)
    ensures Ptrs(strs + [s], d) == Ptrs(strs, d) + [d + |Bytes(strs)|]
  {
    PtrsConcat(strs, [s], d);
    assert Ptrs([s], d + |Bytes(strs)|) == [d + |Bytes(strs)|] + Ptrs([s][1..], d + |Bytes(strs)| + |s| + 1);
  }

  /** Stores a word at the argument pointer and moves the pointer past it. */
  method PushWord(a: array<byte>, argPtr: nat, w: nat, ghost m: seq<byte>, ghost r: nat, ghost ws: seq<nat>,
                  ghost d: nat, ghost strs: seq<seq<byte>>) returns (next: nat)
    requires argPtr == r + 8 * |ws| && argPtr + 8 <= |m| == a.Length && d + |Bytes(strs)| <= |m|
    requires a[..] == Partial(m, r, ws, d, strs)
    modifies a
    ensures next == r + 8 * |ws + [w]| && a[..] == Partial(m, r, ws + [w], d, strs)
  {
    Store(a, argPtr, Le(w, 8));
    AddWord(m, r, ws, d, strs, w);
    next := argPtr + 8;
  }

  /** Stores the data pointer, then copies a string with its NUL to where it points. */
  method PushString(a: array<byte>, argPtr: nat, dataPtr: nat, s: seq<byte>, ghost m: seq<byte>, ghost r: nat,
                    ghost ws: seq<nat>, ghost d: nat, ghost strs: seq<seq<byte>>) returns (nextArg: nat, nextData: nat)
    requires argPtr == r + 8 * |ws| && argPtr + 8 <= d && |m| == a.Length
    requires dataPtr == d + |Bytes(strs)| && dataPtr + |s| + 1 <= |m|
    requires a[..] == Partial(m, r, ws, d, strs)
    modifies a
    ensures nextArg == r + 8 * |ws + [dataPtr]| && nextData == d + |Bytes(strs + [s])| == dataPtr + |s| + 1 <= |m|
    ensures a[..] == Partial(m, r, ws + [dataPtr], d, strs + [s])
  {
    nextArg := PushWord(a, argPtr, dataPtr, m, r, ws, d, strs);
    Store(a, dataPtr, s + [0]);
    AddString(m, r, ws + [dataPtr], d, strs, s);
    nextData := dataPtr + |s| + 1;
  }

  /** What one more string adds to the pointers and to the characters. */
  lemma NextString(v: seq<seq<byte>>, i: nat, ws: seq<nat>, strs: seq<seq<byte>>, dataPtr: nat)
    requires i < |v|
    ensures v[..i + 1] == v[..i] + [v[i]] && strs + v[..i + 1] == (strs + v[..i]) + [v[i]]
    ensures |Bytes(strs + v[..i + 1])| == |Bytes(strs)| + |Bytes(v[..i + 1])|
    ensures |Bytes(v[..i + 1])| == |Bytes(v[..i])| + |v[i]| + 1 <= |Bytes(v)|
    ensures (ws + Ptrs(v[..i], dataPtr)) + [dataPtr + |Bytes(v[..i])|] == ws + Ptrs(v[..i + 1], dataPtr)
  {
    assert v[..i + 1] == v[..i] + [v[i]] && strs + v[..i + 1] == (strs + v[..i]) + [v[i]];
    assert v == v[..i + 1] + v[i + 1..];
    hide Bytes, Ptrs;
    BytesConcat(v[..i + 1], v[i + 1..]);
    BytesConcat(strs, v[..i + 1]);
    AddPtr(v[..i], v[i], dataPtr);
    OneMore(v[..i], v[i]);
  }

  /** A loop over argv or envv. */
  method PushStrings(a: array<byte>, argPtr: nat, dataPtr: nat, v: seq<seq<byte>>, ghost m: seq<byte>, ghost r: nat,
                     ghost ws: seq<nat>, ghost d: nat, ghost strs: seq<seq<byte>>) returns (nextArg: nat, nextData: nat)
    requires argPtr == r + 8 * |ws| && argPtr + 8 * |v| <= d && |m| == a.Length
    requires dataPtr == d + |Bytes(strs)| && dataPtr + |Bytes(v)| <= |m|
    requires a[..] == Partial(m, r, ws, d, strs)
    modifies a
    ensures nextArg == r + 8 * (|ws| + |v|) && nextData == d + |Bytes(strs + v)| == dataPtr + |Bytes(v)| <= |m|
    ensures a[..] == Partial(m, r, ws + Ptrs(v, dataPtr), d, strs + v)
  {
    var i := 0;
    nextArg, nextData := argPtr, dataPtr;
    assert v[..0] == [] && strs + v[..0] == strs && ws + Ptrs(v[..0], dataPtr) == ws;
    assert Bytes(v[..0]) == [];
    hide Partial, Put, Words, Bytes, Ptrs;
    while i < |v|
      invariant i <= |v| && nextArg == r + 8 * (|ws| + i)
      invariant |Bytes(strs + v[..i])| == |Bytes(strs)| + |Bytes(v[..i])|
      invariant nextData == d + |Bytes(strs + v[..i])| <= |m|
      invariant a[..] == Partial(m, r, ws + Ptrs(v[..i], dataPtr), d, strs + v[..i])
    {
      NextString(v, i, ws, strs, dataPtr);
      nextArg, nextData := PushString(a, nextArg, nextData, v[i], m, r, ws + Ptrs(v[..i], dataPtr), d, strs + v[..i]);
      i := i + 1;
    }
    assert v[..|v|] == v;
  }

  /** The loop and the NULL that ends the vector. */
  method PushVec(a: array<byte>, argPtr: nat, dataPtr: nat, v: seq<seq<byte>>, ghost m: seq<byte>, ghost r: nat,
                 ghost ws: seq<nat>, ghost d: nat, ghost strs: seq<seq<byte>>) returns (nextArg: nat, nextData: nat)
    requires argPtr == r + 8 * |ws| && argPtr + 8 * |v| + 8 <= d && |m| == a.Length
    requires dataPtr == d + |Bytes(strs)| && dataPtr + |Bytes(v)| <= |m|
    requires a[..] == Partial(m, r, ws, d, strs)
    modifies a
    ensures nextArg == r + 8 * (|ws| + |v| + 1) && nextData == d + |Bytes(strs + v)| == dataPtr + |Bytes(v)| <= |m|
    ensures a[..] == Partial(m, r, ws + (Ptrs(v, dataPtr) + [0]), d, strs + v)
  {
    hide Partial, Put, Words, Bytes, Ptrs, Le;
    nextArg, nextData := PushStrings(a, argPtr, dataPtr, v, m, r, ws, d, strs);
    nextArg := PushWord(a, nextArg, 0, m, r, ws + Ptrs(v, dataPtr), d, strs + v);
    assert ws + Ptrs(v, dataPtr) + [0] == ws + (Ptrs(v, dataPtr) + [0]);
  }

  lemma OneMore(strs: seq<seq<byte>>, s: seq<byte>)
    ensures |Bytes(strs + [s])| == |Bytes(strs)| + |s| + 1
  {
    BytesConcat(strs, [s]);
    assert Bytes([s]) == s + [0] + Bytes([s][1..]);
  }

  /** setup_aux: the entries, then the word that ends them. */
  method PushAux(a: array<byte>, argPtr: nat, aux: seq<Aux>, ghost m: seq<byte>, ghost r: nat, ghost ws: seq<nat>,
                 ghost d: nat, ghost strs: seq<seq<byte>>)
    requires argPtr == r + 8 * |ws| && argPtr + 16 * |aux| + 8 <= |m| == a.Length && d + |Bytes(strs)| <= |m|
    requires a[..] == Partial(m, r, ws, d, strs)
    modifies a
    ensures a[..] == Partial(m, r, ws + (AuxWords(aux) + [0]), d, strs)
  {
    var i, cur := 0, argPtr;
    assert aux[..0] == [] && ws + AuxWords(aux[..0]) == ws;
    while i < |aux|
      invariant i <= |aux| && cur == r + 8 * (|ws| + 2 * i)
      invariant a[..] == Partial(m, r, ws + AuxWords(aux[..i]), d, strs)
    {
      ghost var was := ws + AuxWords(aux[..i]);
      cur := PushWord(a, cur, aux[i].kind, m, r, was, d, strs);
      cur := PushWord(a, cur, aux[i].value, m, r, was + [aux[i].kind], d, strs);
      AddAux(aux[..i], aux[i]);
      assert aux[..i + 1] == aux[..i] + [aux[i]];
      assert was + [aux[i].kind] + [aux[i].value] == ws + AuxWords(aux[..i + 1]);
      i := i + 1;
    }
    assert aux[..|aux|] == aux;
    cur := PushWord(a, cur, 0, m, r, ws + AuxWords(aux), d, strs);
    assert ws + AuxWords(aux) + [0] == ws + (AuxWords(aux) + [0]);
  }

  lemma {:induction false} AddAux(aux: seq<Aux>, x: Aux)
    ensures AuxWords(aux + [x]) == AuxWords(aux) + [x.kind, x.value]
  {
    if aux == [] {
      assert aux + [x] == [x] && [x][1..] == [];
    } else {
      assert (aux + [x])[1..] == aux[1..] + [x];
      AddAux(aux[1..], x);
    }
  }

  /** What the program is to be given. */
  function Wanted(path: seq<byte>, argv: seq<Ptr>, envv: seq<Ptr>, aux: seq<Aux>): (img: Image) {
    Image(|Strs(argv)| + 1, [path] + Strs(argv), Strs(envv), aux)
  }

  function Chars(path: seq<byte>, argv: seq<Ptr>, envv: seq<Ptr>): (r: nat) {
    |path| + 1 + |Bytes(Strs(argv))| + |Bytes(Strs(envv))|
  }

  lemma CharsAre(path: seq<byte>, argv: seq<seq<byte>>, envv: seq<seq<byte>>)
    ensures |Bytes([path] + argv + envv)| == |path| + 1 + |Bytes(argv)| + |Bytes(envv)|
    ensures |Bytes([path] + argv)| == |path| + 1 + |Bytes(argv)|
  {
    BytesConcat([path] + argv, envv);
    assert ([path] + argv)[1..] == argv;
  }

  /** Strings and vector fit under sp; the last word of the vector is clear of the strings exactly when rounding left
      8 bytes. */
  lemma ImageFits(sp: nat, path: seq<byte>, argv: seq<Ptr>, envv: seq<Ptr>, aux: seq<Aux>)
    requires Terminated(argv) && Terminated(envv) && |aux| == NUM_AUX && sp % 32 == 0
    requires Reserve(|argv| - 1, |envv| - 1, Chars(path, argv, envv)) <= sp
    ensures var img := Wanted(path, argv, envv, aux); |Bytes(img.args + img.envs)| == Chars(path, argv, envv) <= sp
    ensures var r, d := sp - Reserve(|argv| - 1, |envv| - 1, Chars(path, argv, envv)), sp - Chars(path, argv, envv);
            var n := |Vector(Wanted(path, argv, envv, aux), d)|;
            && r + 8 * (n - 1) <= d && r + 8 * n <= sp
            && (r + 8 * n <= d <==> Padding(|argv| - 1, |envv| - 1, Chars(path, argv, envv)) >= 8)
  {
    hide Bytes, Vector, Reserve, Padding;
    CharsAre(path, Strs(argv), Strs(envv));
    LayoutArithmetic(|argv| - 1, |envv| - 1, Chars(path, argv, envv), sp);
  }

  lemma StringsOk(path: seq<byte>, argv: seq<Ptr>, envv: seq<Ptr>)
    requires Terminated(argv) && Terminated(envv) && NoNul(path)
    ensures forall i :: 0 <= i < |[path] + Strs(argv) + Strs(envv)| ==> NoNul(([path] + Strs(argv) + Strs(envv))[i])
  {
    hide NoNul;
    var all := [path] + Strs(argv) + Strs(envv);
    forall i | 0 <= i < |all| ensures NoNul(all[i]) {
      if 0 < i < |argv| { assert all[i] == argv[i - 1].s; }
      if |argv| <= i { assert all[i] == envv[i - |argv|].s; }
    }
  }

  /** setup_arguments. */
  method SetupArguments(a: array<byte>, sp: nat, path: seq<byte>, argv: seq<Ptr>, envv: seq<Ptr>,
                        ref: seq<Aux>, elf: ElfData)
    returns (r: Option<nat>, ghost aux: seq<Aux>)
    requires Terminated(argv) && Measured(argv) && Terminated(envv) && Measured(envv) && RefOk(ref, elf)
    requires sp <= a.Length <= WORD && sp % 32 == 0
    requires Reserve(|argv| - 1, |envv| - 1, Chars(path, argv, envv)) <= sp
    modifies a
    ensures r.None? <==> exists k :: 0 <= k < NUM_AUX && AuxValue(ref, elf, Kinds()[k]).None?
    ensures r.None? <==> MissesOne(ref)
    ensures r.Some? ==> r.value == sp - Reserve(|argv| - 1, |envv| - 1, Chars(path, argv, envv))
    ensures r.Some? ==> |aux| == NUM_AUX && AuxFor(ref, elf, aux) && AuxOk(aux) && AuxLiteral(ref, elf, aux)
    ensures r.Some? ==> BuiltImage(old(a[..]), a[..], sp, r.value, Wanted(path, argv, envv, aux))
    ensures r.Some? && Roomy(path, argv, envv) ==> Reads(a[..], r.value, path, argv, envv, ref, elf)
    ensures r.Some? ==> r.value % 32 == 0 && forall k :: 0 <= k < a.Length && !(r.value <= k < sp) ==> a[k] == old(a[k])
  {
    hide Span, AuxFor, AuxLiteral, MissesOne, AuxOk, Bytes, RefOk, Padding, Kinds, AuxValue, Wanted, Vector, Laid;
    aux := [];
    var argc, arglen := CountArgs(argv);
    var envc, envlen := CountArgs(envv);
    assert argc == |argv| - 1 && envc == |envv| - 1;
    hide Terminated;
    var chars := arglen + envlen + |path| + 1;
    var len := (chars + 16 * NUM_AUX + (argc + envc + 4) * 8 + 31) / 32 * 32;
    assert chars == Chars(path, argv, envv) && len == Reserve(argc, envc, chars);
    hide Reserve, Chars;
    var entries := AuxEntries(ref, elf);
    if entries.None? {
      return None, aux;
    }
    aux := entries.value;
    ImageFits(sp, path, argv, envv, aux);
    WriteImage(a, sp - len, sp - chars, Wanted(path, argv, envv, entries.value));
    assert BuiltImage(old(a[..]), a[..], sp, sp - len, Wanted(path, argv, envv, aux));
    hide BuiltImage, Roomy, Reads;
    BuiltOutside(old(a[..]), a[..], sp, path, argv, envv, aux, sp - len);
    if Roomy(path, argv, envv) { RoomyReads(old(a[..]), a[..], sp, path, argv, envv, aux, sp - len, ref, elf); }
    return Some(sp - len), aux;
  }

  /** The memory holds the image: strings filling the bytes up to sp, vector from r. */
  ghost predicate BuiltImage(m0: seq<byte>, m: seq<byte>, sp: nat, r: nat, img: Image) {
    && |Bytes(img.args + img.envs)| <= sp <= |m0|
    && var d := sp - |Bytes(img.args + img.envs)|;
    && r + 8 * |Vector(img, d)| <= |m0|
    && m == Laid(m0, r, img, d)
  }

  lemma PartialEmpty(m: seq<byte>, r: nat, d: nat)
    requires r <= |m| && d <= |m|
    ensures Bytes([]) == [] && Partial(m, r, [], d, []) == m
  {
  }

  /** The writes in order: count, path and arguments, environment, auxiliary vector. */
  method WriteImage(a: array<byte>, r: nat, d: nat, img: Image)
    requires d + |Bytes(img.args + img.envs)| <= a.Length
    requires r + 8 * (|Vector(img, d)| - 1) <= d && r + 8 * |Vector(img, d)| <= a.Length
    modifies a
    ensures a[..] == Laid(old(a[..]), r, img, d)
  {
    hide Partial, Put, Words, Bytes, Ptrs, AuxWords, Le, Vector, Laid;
    ghost var m := a[..];
    PartialEmpty(m, r, d);
    BytesConcat(img.args, img.envs);
    ghost var w1, w2 := Ptrs(img.args, d) + [0], Ptrs(img.envs, d + |Bytes(img.args)|) + [0];
    var argPtr := PushWord(a, r, img.argc, m, r, [], d, []);
    assert [] + [img.argc] == [img.argc] && [] + img.args == img.args;
    var dataPtr;
    argPtr, dataPtr := PushVec(a, argPtr, d, img.args, m, r, [img.argc], d, []);
    argPtr, dataPtr := PushVec(a, argPtr, dataPtr, img.envs, m, r, [img.argc] + w1, d, img.args);
    PushAux(a, argPtr, img.aux, m, r, [img.argc] + w1 + w2, d, img.args + img.envs);
    PartialIsLaid(m, r, img, d);
  }

  lemma PartialIsLaid(m: seq<byte>, r: nat, img: Image, d: nat)
    requires d + |Bytes(img.args + img.envs)| <= |m| && r + 8 * |Vector(img, d)| <= |m|
    ensures var w1, w2 := Ptrs(img.args, d) + [0], Ptrs(img.envs, d + |Bytes(img.args)|) + [0];
            var words := [img.argc] + w1 + w2 + (AuxWords(img.aux) + [0]);
            Partial(m, r, words, d, img.args + img.envs) == Laid(m, r, img, d)
  {
  }

  /** Reading the built stack from the returned pointer gives argc + 1, the path and argv, envv and the 13 auxiliary
      entries, exactly when rounding to 32 bytes left at least 8 bytes of padding, or the strings that the terminating
      word covers are empty: as many, from the path on, as bytes are missing from the 8. */
  lemma BuiltStackDecodes(m0: seq<byte>, m: seq<byte>, sp: nat, path: seq<byte>, argv: seq<Ptr>, envv: seq<Ptr>,
                          aux: seq<Aux>, r: nat)
    requires Terminated(argv) && Terminated(envv) && NoNul(path) && |aux| == NUM_AUX && AuxOk(aux)
    requires sp <= |m0| <= WORD && sp % 32 == 0 && |argv| < WORD
    requires Reserve(|argv| - 1, |envv| - 1, Chars(path, argv, envv)) <= sp
    requires r == sp - Reserve(|argv| - 1, |envv| - 1, Chars(path, argv, envv))
    requires BuiltImage(m0, m, sp, r, Wanted(path, argv, envv, aux))
    ensures Decode(m, r) == Some(Wanted(path, argv, envv, aux)) <==>
            LeadingEmpty([path] + Strs(argv) + Strs(envv), 8 - Padding(|argv| - 1, |envv| - 1, Chars(path, argv, envv)))
    ensures path != [] ==>
              (Decode(m, r) == Some(Wanted(path, argv, envv, aux)) <==>
               Padding(|argv| - 1, |envv| - 1, Chars(path, argv, envv)) >= 8)
  {
    hide NoNul, AuxOk, Bytes, Vector, Laid, Decode, Padding, Reserve, Chars, ImageOk, LeadingEmpty, ZeroStart, Wanted,
      Strs, Words, Put;
    var img, pad := Wanted(path, argv, envv, aux), Padding(|argv| - 1, |envv| - 1, Chars(path, argv, envv));
    hide Terminated;
    ImageFits(sp, path, argv, envv, aux);
    ImageEnds(sp, path, argv, envv, aux);
    WantedOk(sp, path, argv, envv, aux);
    CoveredEmpty(path, argv, envv, pad);
    DecodesIffHarmless(m0, r, img, sp - Chars(path, argv, envv));
  }

  lemma WantedOk(sp: nat, path: seq<byte>, argv: seq<Ptr>, envv: seq<Ptr>, aux: seq<Aux>)
    requires Terminated(argv) && Terminated(envv) && NoNul(path) && |aux| == NUM_AUX && AuxOk(aux)
    requires sp <= WORD && sp % 32 == 0 && |argv| < WORD
    requires Reserve(|argv| - 1, |envv| - 1, Chars(path, argv, envv)) <= sp
    ensures Chars(path, argv, envv) <= sp && ImageOk(Wanted(path, argv, envv, aux), sp - Chars(path, argv, envv))
    ensures Wanted(path, argv, envv, aux).args + Wanted(path, argv, envv, aux).envs == [path] + Strs(argv) + Strs(envv)
  {
    hide NoNul, AuxOk, Bytes, Vector, Padding, Reserve, Chars;
    StringsOk(path, argv, envv);
    ImageFits(sp, path, argv, envv, aux);
  }

  /** The covered bytes are zero exactly when the covered strings are empty; a nonempty path is among them. */
  lemma CoveredEmpty(path: seq<byte>, argv: seq<Ptr>, envv: seq<Ptr>, pad: nat)
    requires Terminated(argv) && Terminated(envv) && NoNul(path)
    ensures var all := [path] + Strs(argv) + Strs(envv);
            ZeroStart(Bytes(all), 8 - pad) <==> LeadingEmpty(all, 8 - pad)
    ensures path != [] ==> (LeadingEmpty([path] + Strs(argv) + Strs(envv), 8 - pad) <==> pad >= 8)
  {
    var all := [path] + Strs(argv) + Strs(envv);
    StringsOk(path, argv, envv);
    hide NoNul, Bytes, Strs, Terminated;
    if pad < 8 { ZeroBytesIffEmpty(all, 8 - pad); }
    assert all[0] == path;
  }

  /** The terminating word reaches 8 bytes less the padding into the strings. */
  lemma ImageEnds(sp: nat, path: seq<byte>, argv: seq<Ptr>, envv: seq<Ptr>, aux: seq<Aux>)
    requires Terminated(argv) && Terminated(envv) && |aux| == NUM_AUX && sp % 32 == 0
    requires Reserve(|argv| - 1, |envv| - 1, Chars(path, argv, envv)) <= sp
    ensures Chars(path, argv, envv) <= sp
    ensures var r, d := sp - Reserve(|argv| - 1, |envv| - 1, Chars(path, argv, envv)), sp - Chars(path, argv, envv);
            r + 8 * |Vector(Wanted(path, argv, envv, aux), d)| - d
            == 8 - Padding(|argv| - 1, |envv| - 1, Chars(path, argv, envv))
  {
    hide Bytes, Vector, Reserve, Padding;
    ImageFits(sp, path, argv, envv, aux);
    LayoutArithmetic(|argv| - 1, |envv| - 1, Chars(path, argv, envv), sp);
  }

  lemma NoPadding()
    ensures Padding(0, 0, 16) == 0
  {
  }

  lemma NoArguments(path: seq<byte>)
    ensures Terminated([Null]) && Chars(path, [Null], [Null]) == |path| + 1
  {
    assert Strs([Null]) == [];
  }

  /** Such a stack: a program name of 15 characters, no arguments and no environment leave no padding at all. */
  lemma FifteenCharactersDoNotDecode(m0: seq<byte>, m: seq<byte>, sp: nat, path: seq<byte>, aux: seq<Aux>, r: nat)
    requires NoNul(path) && |path| == 15 && |aux| == NUM_AUX && AuxOk(aux)
    requires sp <= |m0| <= WORD && sp % 32 == 0 && Reserve(0, 0, 16) <= sp && r == sp - Reserve(0, 0, 16)
    requires BuiltImage(m0, m, sp, r, Wanted(path, [Null], [Null], aux))
    ensures Decode(m, r) != Some(Wanted(path, [Null], [Null], aux))
  {
    hide Padding, Reserve, Wanted, Chars, BuiltImage, Decode, Strs, NoNul, AuxOk, LeadingEmpty, Terminated;
    var none: seq<Ptr> := [Null];
    assert |none| - 1 == 0;
    NoPadding();
    NoArguments(path);
    BuiltStackDecodes(m0, m, sp, path, none, none, aux, r);
  }

  /** What the program reads from such a stack, spelled out: one more than the number of arguments, the path and the
      arguments, the environment, and the thirteen entries. */
  ghost predicate Reads(m: seq<byte>, r: nat, path: seq<byte>, argv: seq<Ptr>, envv: seq<Ptr>,
                        ref: seq<Aux>, elf: ElfData)
    requires Terminated(argv) && Terminated(envv)
  {
    && Decode(m, r).Some?
    && var img := Decode(m, r).value;
    && img.argc == |argv| == |img.args| && img.args[0] == path
    && (forall i :: 0 <= i < |argv| - 1 ==> img.args[i + 1] == argv[i].s)
    && |img.envs| == |envv| - 1 && (forall i :: 0 <= i < |envv| - 1 ==> img.envs[i] == envv[i].s)
    && AuxLiteral(ref, elf, img.aux)
  }

  /** With 8 bytes of padding the program reads exactly that. */
  lemma BuiltStackReads(m0: seq<byte>, m: seq<byte>, sp: nat, path: seq<byte>, argv: seq<Ptr>, envv: seq<Ptr>,
                        aux: seq<Aux>, r: nat, ref: seq<Aux>, elf: ElfData)
    requires Terminated(argv) && Terminated(envv) && NoNul(path) && |aux| == NUM_AUX && AuxOk(aux)
    requires sp <= |m0| <= WORD && sp % 32 == 0 && |argv| < WORD && AuxLiteral(ref, elf, aux)
    requires Reserve(|argv| - 1, |envv| - 1, Chars(path, argv, envv)) <= sp
    requires r == sp - Reserve(|argv| - 1, |envv| - 1, Chars(path, argv, envv))
    requires BuiltImage(m0, m, sp, r, Wanted(path, argv, envv, aux))
    requires Padding(|argv| - 1, |envv| - 1, Chars(path, argv, envv)) >= 8
    ensures Reads(m, r, path, argv, envv, ref, elf) && r % 32 == 0
  {
    hide Padding, Reserve, Chars, BuiltImage, Decode, NoNul, AuxOk, AuxLiteral;
    BuiltStackDecodes(m0, m, sp, path, argv, envv, aux, r);
    var pad: int := Padding(|argv| - 1, |envv| - 1, Chars(path, argv, envv));
    assert LeadingEmpty([path] + Strs(argv) + Strs(envv), 8 - pad);
    assert r % 32 == 0 by {
      assert Chars(path, argv, envv) > 0 by { CharsPositive(path, argv, envv); }
      LayoutArithmetic(|argv| - 1, |envv| - 1, Chars(path, argv, envv), sp);
    }
  }

  /** The path has no NUL, the count fits into a word, and rounding left 8 bytes. */
  ghost predicate Roomy(path: seq<byte>, argv: seq<Ptr>, envv: seq<Ptr>)
    requires Terminated(argv) && Terminated(envv)
  {
    NoNul(path) && |argv| < WORD && Padding(|argv| - 1, |envv| - 1, Chars(path, argv, envv)) >= 8
  }

  lemma RoomyReads(m0: seq<byte>, m: seq<byte>, sp: nat, path: seq<byte>, argv: seq<Ptr>, envv: seq<Ptr>,
                   aux: seq<Aux>, r: nat, ref: seq<Aux>, elf: ElfData)
    requires Terminated(argv) && Terminated(envv) && Roomy(path, argv, envv) && |aux| == NUM_AUX && AuxOk(aux)
    requires sp <= |m0| <= WORD && sp % 32 == 0 && AuxLiteral(ref, elf, aux)
    requires Reserve(|argv| - 1, |envv| - 1, Chars(path, argv, envv)) <= sp
    requires r == sp - Reserve(|argv| - 1, |envv| - 1, Chars(path, argv, envv))
    requires BuiltImage(m0, m, sp, r, Wanted(path, argv, envv, aux))
    ensures Reads(m, r, path, argv, envv, ref, elf)
  {
    hide Reads, BuiltImage, Wanted, Reserve, Padding, Chars, NoNul, AuxOk, AuxLiteral;
    BuiltStackReads(m0, m, sp, path, argv, envv, aux, r, ref, elf);
  }

  /** Nothing outside the new stack is written. */
  lemma BuiltOutside(m0: seq<byte>, m: seq<byte>, sp: nat, path: seq<byte>, argv: seq<Ptr>, envv: seq<Ptr>,
                     aux: seq<Aux>, r: nat)
    requires Terminated(argv) && Terminated(envv) && |aux| == NUM_AUX && sp % 32 == 0
    requires Reserve(|argv| - 1, |envv| - 1, Chars(path, argv, envv)) <= sp
    requires r == sp - Reserve(|argv| - 1, |envv| - 1, Chars(path, argv, envv))
    requires BuiltImage(m0, m, sp, r, Wanted(path, argv, envv, aux))
    ensures r % 32 == 0 && |m| == |m0| && forall k :: 0 <= k < |m| && !(r <= k < sp) ==> m[k] == m0[k]
  {
    ImageFits(sp, path, argv, envv, aux);
    CharsPositive(path, argv, envv);
    LayoutArithmetic(|argv| - 1, |envv| - 1, Chars(path, argv, envv), sp);
    hide Reserve, Chars, Padding, Wanted, Terminated;
    var img := Wanted(path, argv, envv, aux);
    var d := sp - |Bytes(img.args + img.envs)|;
    PutOutside(m0, d, Bytes(img.args + img.envs), r, Words(Vector(img, d)), sp);
  }

  lemma PutOutside(m0: seq<byte>, d: nat, b: seq<byte>, r: nat, v: seq<byte>, sp: nat)
    requires r <= d && d + |b| == sp <= |m0| && r + |v| <= sp
    ensures forall k :: 0 <= k < |m0| && !(r <= k < sp) ==> Put(Put(m0, d, b), r, v)[k] == m0[k]
  {
  }

  lemma CharsPositive(path: seq<byte>, argv: seq<Ptr>, envv: seq<Ptr>)
    ensures Chars(path, argv, envv) > 0
  {
  }
}
