/** The initial stack of a process (section 3.4.1 of the System V AMD64 ABI): what a program reads from its
    stack pointer, and the bytes that make it read the intended arguments, environment and auxiliary vector. */
module StackImage {
  import opened Common

  datatype Aux = Aux(kind: nat, value: nat)

  datatype Image = Image(argc: nat, args: seq<seq<byte>>, envs: seq<seq<byte>>, aux: seq<Aux>)

  // ---------- Reading ----------

  function FromLe(b: seq<byte>): (r: nat) {
    if b == [] then 0 else b[0] + 256 * FromLe(b[1..])
  }

  function ReadWord(m: seq<byte>, at: nat): (r: nat)
    requires at + 8 <= |m|
  {
    FromLe(m[at..at + 8])
  }

  /** The C string at an address. */
  function ReadStr(m: seq<byte>, at: nat): (r: Option<seq<byte>>)
    decreases |m| - at
  {
    if at >= |m| then None
    else if m[at] == 0 then Some([])
    else
      match ReadStr(m, at + 1)
      case None => None
      case Some(s) => Some([m[at]] + s)
  }

  /** A NULL-terminated vector of strings, and the address after its terminator. */
  function ReadVec(m: seq<byte>, at: nat): (r: Option<(seq<seq<byte>>, nat)>)
    decreases |m| - at
  {
    if at + 8 > |m| then None
    else if ReadWord(m, at) == 0 then Some(([], at + 8))
    else
      match (ReadStr(m, ReadWord(m, at)), ReadVec(m, at + 8))
      case (Some(s), Some(rest)) => Some(([s] + rest.0, rest.1))
      case _ => None
  }

  /** Auxiliary entries up to the one of type zero. */
  function ReadAux(m: seq<byte>, at: nat): (r: Option<seq<Aux>>)
    decreases |m| - at
  {
    if at + 8 > |m| then None
    else if ReadWord(m, at) == 0 then Some([])
    else if at + 16 > |m| then None
    else
      match ReadAux(m, at + 16)
      case Some(rest) => Some([Aux(ReadWord(m, at), ReadWord(m, at + 8))] + rest)
      case None => None
  }

  function Decode(m: seq<byte>, sp: nat): (r: Option<Image>) {
    if sp + 8 > |m| then None
    else
      match ReadVec(m, sp + 8)
      case None => None
      case Some((args, e)) =>
        match ReadVec(m, e)
        case None => None
        case Some((envs, x)) =>
          match ReadAux(m, x)
          case None => None
          case Some(aux) => Some(Image(ReadWord(m, sp), args, envs, aux))
  }

  // ---------- Writing ----------

  function Le(w: nat, n: nat): (r: seq<byte>)
    ensures |r| == n
  {
    if n == 0 then [] else [w % 256] + Le(w / 256, n - 1)
  }

  function Words(ws: seq<nat>): (r: seq<byte>)
    ensures |r| == 8 * |ws|
  {
    if ws == [] then [] else Le(ws[0], 8) + Words(ws[1..])
  }

  /** The strings one after the other, each with its NUL. */
  function Bytes(strs: seq<seq<byte>>): (r: seq<byte>) {
    if strs == [] then [] else strs[0] + [0] + Bytes(strs[1..])
  }

  /** Their addresses when the first is at `at`. */
  function Ptrs(strs: seq<seq<byte>>, at: nat): (r: seq<nat>)
    ensures |r| == |strs|
  {
    if strs == [] then [] else [at] + Ptrs(strs[1..], at + |strs[0]| + 1)
  }

  function AuxWords(aux: seq<Aux>): (r: seq<nat>)
    ensures |r| == 2 * |aux|
  {
    if aux == [] then [] else [aux[0].kind, aux[0].value] + AuxWords(aux[1..])
  }

  /** The words from the stack pointer up, for strings that start at `d`. */
  function Vector(img: Image, d: nat): (r: seq<nat>)
    ensures |r| == 4 + |img.args| + |img.envs| + 2 * |img.aux|
  {
    [img.argc] + (Ptrs(img.args, d) + [0]) + (Ptrs(img.envs, d + |Bytes(img.args)|) + [0]) + (AuxWords(img.aux) + [0])
  }

  function Put(m: seq<byte>, at: nat, b: seq<byte>): (r: seq<byte>)
    requires at + |b| <= |m|
    ensures |r| == |m|
  {
    m[..at] + b + m[at + |b|..]
  }

  // ---------- Properties of single words and strings ----------

  function Exp(n: nat): (r: nat) { if n == 0 then 1 else 256 * Exp(n - 1) }

  lemma {:induction false} LeRoundTrip(w: nat, n: nat)
    requires w < Exp(n)
    ensures FromLe(Le(w, n)) == w
  {
    if n > 0 {
      assert w / 256 < Exp(n - 1);
      LeRoundTrip(w / 256, n - 1);
      assert Le(w, n)[1..] == Le(w / 256, n - 1);
    }
  }

  lemma WordRoundTrip(w: nat)
    requires w < WORD
    ensures FromLe(Le(w, 8)) == w
  {
    assert Exp(4) == 0x1_0000_0000;
    assert Exp(8) == 256 * (256 * (256 * (256 * Exp(4))));
    LeRoundTrip(w, 8);
  }

  ghost predicate Has(m: seq<byte>, at: nat, b: seq<byte>) {
    at + |b| <= |m| && m[at..at + |b|] == b
  }

  lemma HasConcat(m: seq<byte>, at: nat, a: seq<byte>, b: seq<byte>)
    requires Has(m, at, a + b)
    ensures Has(m, at, a) && Has(m, at + |a|, b)
  {
    assert m[at..at + |a|] == (a + b)[..|a|] == a;
    assert m[at + |a|..at + |a| + |b|] == (a + b)[|a|..] == b;
  }

  lemma {:induction false} WordsConcat(a: seq<nat>, b: seq<nat>)
    ensures Words(a + b) == Words(a) + Words(b)
  {
    if a == [] {
      assert a + b == b;
    } else {
      assert (a + b)[1..] == a[1..] + b;
      WordsConcat(a[1..], b);
    }
  }

  lemma {:induction false} BytesConcat(a: seq<seq<byte>>, b: seq<seq<byte>>)
    ensures Bytes(a + b) == Bytes(a) + Bytes(b)
  {
    if a == [] {
      assert a + b == b;
    } else {
      assert (a + b)[1..] == a[1..] + b;
      BytesConcat(a[1..], b);
    }
  }

  lemma {:induction false} PtrsConcat(a: seq<seq<byte>>, b: seq<seq<byte>>, at: nat)
    ensures Ptrs(a + b, at) == Ptrs(a, at) + Ptrs(b, at + |Bytes(a)|)
  {
    if a == [] {
      assert a + b == b;
    } else {
      assert (a + b)[1..] == a[1..] + b;
      PtrsConcat(a[1..], b, at + |a[0]| + 1);
    }
  }

  lemma ReadHead(m: seq<byte>, at: nat, ws: seq<nat>)
    requires ws != [] && ws[0] < WORD && Has(m, at, Words(ws))
    ensures at + 8 <= |m| && ReadWord(m, at) == ws[0]
    ensures Has(m, at + 8, Words(ws[1..]))
  {
    HasConcat(m, at, Le(ws[0], 8), Words(ws[1..]));
    WordRoundTrip(ws[0]);
  }

  ghost predicate NoNul(s: seq<byte>) { forall i :: 0 <= i < |s| ==> s[i] != 0 }

  lemma {:induction false} ReadStrOk(m: seq<byte>, at: nat, s: seq<byte>)
    requires NoNul(s) && Has(m, at, s + [0])
    ensures ReadStr(m, at) == Some(s)
    decreases |s|
  {
    if s == [] {
      assert m[at] == m[at..at + 1][0];
    } else {
      assert s + [0] == [s[0]] + (s[1..] + [0]);
      HasConcat(m, at, [s[0]], s[1..] + [0]);
      assert m[at] == m[at..at + 1][0];
      ReadStrOk(m, at + 1, s[1..]);
      assert [s[0]] + s[1..] == s;
    }
  }

  // ---------- Reading back what was written ----------

  ghost predicate Fits(strs: seq<seq<byte>>, d: nat) {
    && 0 < d && d + |Bytes(strs)| <= WORD
    && forall i :: 0 <= i < |strs| ==> NoNul(strs[i])
  }

  lemma {:induction false} ReadVecOk(m: seq<byte>, at: nat, strs: seq<seq<byte>>, d: nat)
    requires Fits(strs, d)
    requires Has(m, at, Words(Ptrs(strs, d) + [0])) && Has(m, d, Bytes(strs))
    ensures ReadVec(m, at) == Some((strs, at + 8 * (|strs| + 1)))
    decreases |strs|
  {
    hide Has, Words, ReadStr, ReadWord;
    var ws := Ptrs(strs, d) + [0];
    ReadHead(m, at, ws);
    if strs != [] {
      HasConcat(m, d, strs[0] + [0], Bytes(strs[1..]));
      ReadStrOk(m, d, strs[0]);
      assert ws[1..] == Ptrs(strs[1..], d + |strs[0]| + 1) + [0];
      ReadVecOk(m, at + 8, strs[1..], d + |strs[0]| + 1);
      assert [strs[0]] + strs[1..] == strs;
    }
  }

  ghost predicate AuxOk(aux: seq<Aux>) {
    forall i :: 0 <= i < |aux| ==> 0 < aux[i].kind < WORD && aux[i].value < WORD
  }

  lemma {:induction false} ReadAuxOk(m: seq<byte>, at: nat, aux: seq<Aux>)
    requires AuxOk(aux) && Has(m, at, Words(AuxWords(aux) + [0]))
    ensures ReadAux(m, at) == Some(aux)
    decreases |aux|
  {
    var ws := AuxWords(aux) + [0];
    if aux == [] {
      ReadHead(m, at, ws);
    } else {
      assert ws == [aux[0].kind, aux[0].value] + (AuxWords(aux[1..]) + [0]);
      ReadHead(m, at, ws);
      ReadHead(m, at + 8, ws[1..]);
      assert ws[1..][1..] == AuxWords(aux[1..]) + [0];
      ReadAuxOk(m, at + 16, aux[1..]);
      assert [aux[0]] + aux[1..] == aux;
    }
  }

  ghost predicate ImageOk(img: Image, d: nat) {
    img.argc < WORD && Fits(img.args + img.envs, d) && AuxOk(img.aux)
  }

  lemma FitsParts(a: seq<seq<byte>>, b: seq<seq<byte>>, d: nat)
    requires Fits(a + b, d)
    ensures Fits(a, d) && Fits(b, d + |Bytes(a)|)
  {
    BytesConcat(a, b);
    forall i | 0 <= i < |a| ensures NoNul(a[i]) { assert (a + b)[i] == a[i]; }
    forall i | 0 <= i < |b| ensures NoNul(b[i]) { assert (a + b)[|a| + i] == b[i]; }
  }

  /** The parts of the vector in memory. */
  lemma VectorParts(m: seq<byte>, sp: nat, argc: nat, a: seq<nat>, e: seq<nat>, x: seq<nat>)
    requires argc < WORD && Has(m, sp, Words([argc] + a + e + x))
    ensures sp + 8 <= |m| && ReadWord(m, sp) == argc
    ensures Has(m, sp + 8, Words(a)) && Has(m, sp + 8 + 8 * |a|, Words(e))
    ensures Has(m, sp + 8 + 8 * |a| + 8 * |e|, Words(x))
  {
    hide Has, ReadWord, Words;
    var v := [argc] + a + e + x;
    ReadHead(m, sp, v);
    assert v[1..] == a + (e + x);
    WordsConcat(a, e + x);
    HasConcat(m, sp + 8, Words(a), Words(e + x));
    WordsConcat(e, x);
    HasConcat(m, sp + 8 + 8 * |a|, Words(e), Words(x));
  }

  /** A memory that holds the vector at sp and the strings at d decodes to the image. */
  lemma DecodeOk(m: seq<byte>, sp: nat, img: Image, d: nat)
    requires ImageOk(img, d)
    requires Has(m, sp, Words(Vector(img, d))) && Has(m, d, Bytes(img.args + img.envs))
    ensures Decode(m, sp) == Some(img)
  {
    hide Has, Words, Ptrs, Bytes, AuxWords, ReadWord, ReadVec, ReadAux, Fits, AuxOk;
    var a, e, x := Ptrs(img.args, d) + [0], Ptrs(img.envs, d + |Bytes(img.args)|) + [0], AuxWords(img.aux) + [0];
    FitsParts(img.args, img.envs, d);
    BytesConcat(img.args, img.envs);
    HasConcat(m, d, Bytes(img.args), Bytes(img.envs));
    VectorParts(m, sp, img.argc, a, e, x);
    ReadVecOk(m, sp + 8, img.args, d);
    ReadVecOk(m, sp + 8 + 8 * |a|, img.envs, d + |Bytes(img.args)|);
    ReadAuxOk(m, sp + 8 + 8 * |a| + 8 * |e|, img.aux);
  }

  // ---------- Layout ----------

  const NUM_AUX: nat := 13

  /** The bytes setup_arguments reserves for `argc` arguments beyond the path, `envc` variables and `chars` bytes
      of strings: the terminating word of the auxiliary vector is not among them. */
  function Needed(argc: nat, envc: nat, chars: nat): (r: nat) { chars + 16 * NUM_AUX + 8 * (argc + envc + 4) }

  function Reserve(argc: nat, envc: nat, chars: nat): (r: nat) { (Needed(argc, envc, chars) + 31) / 32 * 32 }

  /** What rounding to 32 bytes leaves over. */
  function Padding(argc: nat, envc: nat, chars: nat): (r: nat) {
    Reserve(argc, envc, chars) - Needed(argc, envc, chars)
  }

  /** Words of the vector: one more than Needed counts. */
  function VectorLen(argc: nat, envc: nat): (r: nat) { argc + envc + 4 + 2 * NUM_AUX + 1 }

  /** For all inputs: pointers and the 13 entries end at or below the strings; the terminating word is clear of them
      exactly when at least 8 bytes of padding are left; and it never reaches past the top of the stack. */
  lemma LayoutArithmetic(argc: nat, envc: nat, chars: nat, sp: nat)
    requires chars > 0 && Reserve(argc, envc, chars) <= sp && sp % 32 == 0
    ensures (sp - Reserve(argc, envc, chars)) % 32 == 0 && Padding(argc, envc, chars) < 32
    ensures sp - Reserve(argc, envc, chars) + 8 * (VectorLen(argc, envc) - 1) + Padding(argc, envc, chars) == sp - chars
    ensures sp - Reserve(argc, envc, chars) + 8 * VectorLen(argc, envc) <= sp - chars <==>
            Padding(argc, envc, chars) >= 8
    ensures sp - Reserve(argc, envc, chars) + 8 * VectorLen(argc, envc) <= sp
  {
    var pad := Padding(argc, envc, chars);
    assert Reserve(argc, envc, chars) == 32 * ((Needed(argc, envc, chars) + 31) / 32);
    assert pad < 32;
    var q := (Needed(argc, envc, chars) + 31) / 32;
    assert chars + pad == 8 * (4 * q - (argc + envc + 4 + 2 * NUM_AUX));
    assert (chars + pad) % 8 == 0;
  }

  /** The memory setup_arguments leaves: the strings up to sp, then the vector over it. */
  function Laid(m: seq<byte>, at: nat, img: Image, d: nat): (r: seq<byte>)
    requires d + |Bytes(img.args + img.envs)| <= |m| && at + 8 * |Vector(img, d)| <= |m|
    ensures |r| == |m|
  {
    Put(Put(m, d, Bytes(img.args + img.envs)), at, Words(Vector(img, d)))
  }

  lemma PutHas(m: seq<byte>, at: nat, b: seq<byte>)
    requires at + |b| <= |m|
    ensures Has(Put(m, at, b), at, b)
  {
  }

  // ---------- The converse: what decodes is there ----------

  lemma {:induction false} ReadStrHas(m: seq<byte>, at: nat, s: seq<byte>)
    requires ReadStr(m, at) == Some(s)
    ensures Has(m, at, s + [0])
    decreases |s|
  {
    if m[at] == 0 {
      assert s + [0] == [m[at]];
    } else {
      ReadStrHas(m, at + 1, s[1..]);
      assert s + [0] == [m[at]] + (s[1..] + [0]);
      assert m[at..at + |s| + 1] == [m[at]] + m[at + 1..at + |s| + 1];
    }
  }

  lemma HasJoin(m: seq<byte>, at: nat, a: seq<byte>, b: seq<byte>)
    requires Has(m, at, a) && Has(m, at + |a|, b)
    ensures Has(m, at, a + b)
  {
    assert m[at..at + |a + b|] == m[at..at + |a|] + m[at + |a|..at + |a| + |b|];
  }

  lemma {:induction false} ReadVecHas(m: seq<byte>, at: nat, strs: seq<seq<byte>>, d: nat)
    requires 0 < d && d + |Bytes(strs)| <= WORD && Has(m, at, Words(Ptrs(strs, d) + [0]))
    ensures ReadVec(m, at).Some? ==> ReadVec(m, at).value.1 == at + 8 * (|strs| + 1)
    ensures ReadVec(m, at).Some? && ReadVec(m, at).value.0 == strs && d <= |m| ==> Has(m, d, Bytes(strs))
    decreases |strs|
  {
    hide Has, Words, ReadStr, ReadWord;
    var ws := Ptrs(strs, d) + [0];
    ReadHead(m, at, ws);
    if strs != [] {
      assert ws[1..] == Ptrs(strs[1..], d + |strs[0]| + 1) + [0];
      ReadVecHas(m, at + 8, strs[1..], d + |strs[0]| + 1);
      if ReadVec(m, at).Some? && ReadVec(m, at).value.0 == strs && d <= |m| {
        assert ReadVec(m, at + 8).value.0 == strs[1..];
        ReadStrHas(m, d, strs[0]);
        HasBound(m, d, strs[0] + [0]);
        HasJoin(m, d, strs[0] + [0], Bytes(strs[1..]));
      }
    } else {
      HasNothing(m, d);
    }
  }

  lemma HasBound(m: seq<byte>, at: nat, b: seq<byte>)
    requires Has(m, at, b)
    ensures at + |b| <= |m|
  {
  }

  lemma HasNothing(m: seq<byte>, at: nat)
    ensures at <= |m| ==> Has(m, at, [])
  {
  }

  /** A memory that holds the vector at sp and decodes to the image holds the strings at d. */
  lemma DecodeHas(m: seq<byte>, sp: nat, img: Image, d: nat)
    requires ImageOk(img, d) && Has(m, sp, Words(Vector(img, d))) && d + |Bytes(img.args + img.envs)| <= |m|
    requires Decode(m, sp) == Some(img)
    ensures Has(m, d, Bytes(img.args + img.envs))
  {
    hide Has, Words, Ptrs, Bytes, AuxWords, ReadWord, ReadVec, ReadAux;
    var a, e, x := Ptrs(img.args, d) + [0], Ptrs(img.envs, d + |Bytes(img.args)|) + [0], AuxWords(img.aux) + [0];
    BytesConcat(img.args, img.envs);
    VectorParts(m, sp, img.argc, a, e, x);
    ReadVecHas(m, sp + 8, img.args, d);
    ReadVecHas(m, sp + 8 + 8 * |a|, img.envs, d + |Bytes(img.args)|);
    HasJoin(m, d, Bytes(img.args), Bytes(img.envs));
  }

  // ---------- When the stack decodes ----------

  /** The first n bytes are zero. */
  ghost predicate ZeroStart(s: seq<byte>, n: int) {
    forall k :: 0 <= k < |s| && k < n ==> s[k] == 0
  }

  /** Where the terminating word, which ends at `end`, lies over the strings they are zero. */
  ghost predicate Harmless(s: seq<byte>, d: nat, end: nat) { ZeroStart(s, end - d) }

  /** In the memory setup_arguments leaves, the strings are whole exactly when the terminating word is harmless. */
  lemma LaidHasStrings(m: seq<byte>, at: nat, img: Image, d: nat)
    requires d + |Bytes(img.args + img.envs)| <= |m| && at + 8 * |Vector(img, d)| <= |m|
    requires at + 8 * (|Vector(img, d)| - 1) <= d
    ensures Has(Laid(m, at, img, d), d, Bytes(img.args + img.envs)) <==>
            Harmless(Bytes(img.args + img.envs), d, at + 8 * |Vector(img, d)|)
  {
    var s, v, end := Bytes(img.args + img.envs), Words(Vector(img, d)), at + 8 * |Vector(img, d)|;
    var l := Laid(m, at, img, d);
    forall k | 0 <= k < |s|
      ensures l[d + k] == if d + k < end then 0 else s[k]
    {
      if d + k < end {
        LastWordZero(img, d, d + k - at);
        assert l[d + k] == v[d + k - at];
      } else {
        assert l[d + k] == Put(m, d, s)[d + k];
      }
    }
    hide Laid, Bytes, Vector, Words, Put;
    var part := l[d..d + |s|];
    if Has(l, d, s) {
      forall k | 0 <= k < |s| && d + k < end ensures s[k] == 0 {
        assert s[k] == part[k] == l[d + k];
      }
    }
    if Harmless(s, d, end) {
      forall k | 0 <= k < |s| ensures part[k] == s[k] { assert part[k] == l[d + k]; }
      assert part == s;
    }
  }

  /** The stack decodes to the image exactly when the terminating word is harmless. */
  lemma DecodesIffHarmless(m: seq<byte>, at: nat, img: Image, d: nat)
    requires ImageOk(img, d)
    requires d + |Bytes(img.args + img.envs)| <= |m| && at + 8 * |Vector(img, d)| <= |m|
    requires at + 8 * (|Vector(img, d)| - 1) <= d
    ensures Decode(Laid(m, at, img, d), at) == Some(img) <==>
            Harmless(Bytes(img.args + img.envs), d, at + 8 * |Vector(img, d)|)
  {
    var l := Laid(m, at, img, d);
    PutHas(Put(m, d, Bytes(img.args + img.envs)), at, Words(Vector(img, d)));
    LaidHasStrings(m, at, img, d);
    assert Has(l, at, Words(Vector(img, d)));
    hide Harmless, Has, Laid, Decode, ImageOk, Bytes, Vector, Words, Put;
    if Has(l, d, Bytes(img.args + img.envs)) {
      DecodeOk(l, at, img, d);
    }
    if Decode(l, at) == Some(img) {
      DecodeHas(l, at, img, d);
    }
  }

  /** The first n of the strings are empty. */
  ghost predicate LeadingEmpty(strs: seq<seq<byte>>, n: int) {
    forall i :: 0 <= i < |strs| && i < n ==> strs[i] == []
  }

  /** Strings without NUL start with n zero bytes exactly when the first n of them are empty. */
  lemma {:induction false} ZeroBytesIffEmpty(strs: seq<seq<byte>>, n: nat)
    requires forall i :: 0 <= i < |strs| ==> NoNul(strs[i])
    ensures ZeroStart(Bytes(strs), n) <==> LeadingEmpty(strs, n)
    decreases |strs|
  {
    if strs != [] && n > 0 {
      if strs[0] == [] {
        ZeroBytesIffEmpty(strs[1..], n - 1);
        assert Bytes(strs) == [0] + Bytes(strs[1..]);
        ZeroFirst(Bytes(strs[1..]), n);
        EmptyFirst(strs, n);
      } else {
        assert Bytes(strs)[0] == strs[0][0] != 0;
      }
    }
  }

  lemma ZeroFirst(rest: seq<byte>, n: nat)
    requires n > 0
    ensures ZeroStart([0] + rest, n) <==> ZeroStart(rest, n - 1)
  {
    var b := [0] + rest;
    if ZeroStart(b, n) {
      forall k | 0 <= k < |rest| && k < n - 1 ensures rest[k] == 0 { assert b[k + 1] == rest[k]; }
    }
  }

  lemma EmptyFirst(strs: seq<seq<byte>>, n: nat)
    requires strs != [] && strs[0] == [] && n > 0
    ensures LeadingEmpty(strs, n) <==> LeadingEmpty(strs[1..], n - 1)
  {
    if LeadingEmpty(strs, n) {
      forall i | 0 <= i < |strs[1..]| && i < n - 1 ensures strs[1..][i] == [] { assert strs[1..][i] == strs[i + 1]; }
    }
    if LeadingEmpty(strs[1..], n - 1) {
      forall i | 0 <= i < |strs| && i < n ensures strs[i] == [] {
        if i > 0 { assert strs[i] == strs[1..][i - 1]; }
      }
    }
  }

  /** The last eight bytes of the vector are zero. */
  lemma LastWordZero(img: Image, d: nat, i: nat)
    requires 8 * (|Vector(img, d)| - 1) <= i < 8 * |Vector(img, d)|
    ensures Words(Vector(img, d))[i] == 0
  {
    var v := Vector(img, d);
    assert v == v[..|v| - 1] + [0];
    WordsConcat(v[..|v| - 1], [0]);
    assert Words([0]) == Le(0, 8) + Words([0][1..]) == Le(0, 8);
    ZeroBytes(8);
  }

  lemma {:induction false} ZeroBytes(n: nat)
    ensures forall i :: 0 <= i < n ==> Le(0, n)[i] == 0
  {
    if n > 0 { ZeroBytes(n - 1); }
  }

  /** When the terminating word overlaps the strings it wipes out the first byte of the path. */
  lemma ClobberedPath(m: seq<byte>, at: nat, img: Image, d: nat)
    requires ImageOk(img, d) && img.args != []
    requires Has(m, at, Words(Vector(img, d)))
    requires at + 8 * (|Vector(img, d)| - 1) <= d < at + 8 * |Vector(img, d)|
    ensures Decode(m, at).Some? ==> Decode(m, at).value.args != [] && Decode(m, at).value.args[0] == []
  {
    var v := Vector(img, d);
    LastWordZero(img, d, d - at);
    assert m[d] == m[at..at + |Words(v)|][d - at] == 0;
    ReadHead(m, at, v);
    assert v[1..][0] == d;
    BytesConcat(img.args, img.envs);
    ReadHead(m, at + 8, v[1..]);
    assert ReadStr(m, d) == Some([]);
  }
}
