/** exec_execev: the argument array built for an ELF file or for a script with a `#!` line, and the in-place
    tokenising of that line. */
module Shebang {
  import opened Common

  const EXECPGSIZE: nat := 4096
  const NUL: byte := 0
  const TAB: byte := 9
  const NEWLINE: byte := 10
  const BLANK: byte := 32

  /** An element of an argument array: NULL, a string of the caller's, or a position in the page just read. */
  datatype Ptr = Null | Text(s: seq<byte>) | InPage(off: nat)

  // ---------- Scanning ----------

  datatype Stop = NotBlank | Delimiter | LineEnd

  predicate IsBlank(b: byte) { b == BLANK || b == TAB }

  predicate IsLineEnd(b: byte) { b == NEWLINE || b == NUL }

  predicate StopsAt(stop: Stop, b: byte) {
    match stop
    case NotBlank => !IsBlank(b)
    case Delimiter => IsBlank(b) || IsLineEnd(b)
    case LineEnd => IsLineEnd(b)
  }

  /** The first position from i on where the scan stops, or the end of the page. */
  function Scan(page: seq<byte>, i: nat, stop: Stop): (r: nat)
    requires i <= |page|
    ensures i <= r <= |page| && (r < |page| ==> StopsAt(stop, page[r]))
    ensures forall k :: i <= k < r ==> !StopsAt(stop, page[k])
    decreases |page| - i
  {
    if i == |page| || StopsAt(stop, page[i]) then i else Scan(page, i + 1, stop)
  }

  lemma ScanIs(page: seq<byte>, i: nat, stop: Stop, r: nat)
    requires i <= r < |page| && StopsAt(stop, page[r]) && forall k :: i <= k < r ==> !StopsAt(stop, page[k])
    ensures Scan(page, i, stop) == r
  {
    var s := Scan(page, i, stop);
    assert s <= r;
  }

  /** One of the three scanning loops. */
  method ScanLoop(page: array<byte>, start: nat, stop: Stop) returns (i: nat)
    requires start <= page.Length
    ensures i == Scan(page[..], start, stop)
  {
    i := start;
    while i < page.Length
      invariant start <= i <= page.Length
      invariant Scan(page[..], start, stop) == Scan(page[..], i, stop)
    {
      if StopsAt(stop, page[i]) {
        break;
      }
      i := i + 1;
    }
  }

  function InterpBegin(page: seq<byte>): (r: nat)
    requires |page| >= 2
    ensures 2 <= r <= |page|
  {
    Scan(page, 2, NotBlank)
  }

  function InterpEnd(page: seq<byte>): (r: nat)
    requires |page| >= 2
    ensures InterpBegin(page) <= r <= |page|
  {
    Scan(page, InterpBegin(page), Delimiter)
  }

  function ArgEnd(page: seq<byte>): (r: nat)
    requires |page| >= 2
    ensures InterpEnd(page) <= r <= |page|
  {
    Scan(page, InterpEnd(page), LineEnd)
  }

  // ---------- What an argument array denotes ----------

  /** The C string at a position, as far as it lies in the page. */
  function CString(page: seq<byte>, off: nat): (r: seq<byte>)
    decreases |page| - off
  {
    if off >= |page| || page[off] == NUL then [] else [page[off]] + CString(page, off + 1)
  }

  lemma {:induction false} CStringIs(page: seq<byte>, off: nat, end: nat)
    requires off <= end < |page| && page[end] == NUL && forall k :: off <= k < end ==> page[k] != NUL
    ensures CString(page, off) == page[off..end]
    decreases end - off
  {
    if off < end {
      CStringIs(page, off + 1, end);
      assert page[off..end] == [page[off]] + page[off + 1..end];
    }
  }

  function Resolve(page: seq<byte>, p: Ptr): (r: seq<byte>) {
    match p case Null => [] case Text(s) => s case InPage(off) => CString(page, off)
  }

  /** The strings up to the first NULL, as execve reads them. */
  function Denotes(page: seq<byte>, v: seq<Ptr>): (r: seq<seq<byte>>) {
    if v == [] || v[0].Null? then [] else [Resolve(page, v[0])] + Denotes(page, v[1..])
  }

  /** A C string that starts at the position ends in the page. */
  ghost predicate HasNul(page: seq<byte>, off: nat) { exists k :: off <= k < |page| && page[k] == NUL }

  /** All strings up to the first NULL end in the page. */
  ghost predicate Contained(page: seq<byte>, v: seq<Ptr>) {
    v == [] || v[0].Null? || ((v[0].InPage? ==> HasNul(page, v[0].off)) && Contained(page, v[1..]))
  }

  lemma {:induction false} ContainedPrefix(page: seq<byte>, head: seq<Ptr>, tail: seq<Ptr>)
    requires forall i :: 0 <= i < |head| ==> !head[i].Null?
    ensures Contained(page, head + tail) <==> Contained(page, head) && Contained(page, tail)
  {
    if head == [] {
      assert head + tail == tail;
    } else {
      assert (head + tail)[1..] == head[1..] + tail;
      ContainedPrefix(page, head[1..], tail);
    }
  }

  lemma {:induction false} ContainedEach(page: seq<byte>, v: seq<Ptr>)
    requires forall i :: 0 <= i < |v| ==> !v[i].Null?
    ensures Contained(page, v) <==> forall i :: 0 <= i < |v| && v[i].InPage? ==> HasNul(page, v[i].off)
  {
    if v != [] {
      ContainedEach(page, v[1..]);
      assert forall i :: 0 < i < |v| ==> v[i] == v[1..][i - 1];
      if forall i :: 0 <= i < |v| && v[i].InPage? ==> HasNul(page, v[i].off) {
        forall i | 0 <= i < |v[1..]| && v[1..][i].InPage? ensures HasNul(page, v[1..][i].off) {
          assert v[1..][i] == v[i + 1];
        }
      }
    }
  }

  lemma {:induction false} DenotesPrefix(page: seq<byte>, head: seq<Ptr>, tail: seq<Ptr>)
    requires forall i :: 0 <= i < |head| ==> !head[i].Null?
    ensures Denotes(page, head + tail) == Denotes(page, head) + Denotes(page, tail)
  {
    if head == [] {
      assert head + tail == tail;
    } else {
      assert (head + tail)[1..] == head[1..] + tail;
      DenotesPrefix(page, head[1..], tail);
    }
  }

  lemma {:induction false} DenotesEach(page: seq<byte>, v: seq<Ptr>)
    requires forall i :: 0 <= i < |v| ==> !v[i].Null?
    ensures |Denotes(page, v)| == |v| && forall i :: 0 <= i < |v| ==> Denotes(page, v)[i] == Resolve(page, v[i])
  {
    if v != [] { DenotesEach(page, v[1..]); }
  }

  /** The caller's argv: strings of its own, then NULL. */
  ghost predicate ArgvOk(argv: seq<Ptr>) {
    |argv| > 0 && argv[|argv| - 1] == Null && forall i :: 0 <= i < |argv| - 1 ==> argv[i].Text?
  }

  lemma {:induction false} DenotesTexts(page: seq<byte>, other: seq<byte>, v: seq<Ptr>)
    requires forall i :: 0 <= i < |v| ==> !v[i].InPage?
    ensures Denotes(page, v) == Denotes(other, v)
  {
    if v != [] { DenotesTexts(page, other, v[1..]); }
  }

  /** getlen. */
  method GetLen(arr: seq<Ptr>) returns (i: nat)
    requires ArgvOk(arr)
    ensures i == |arr| - 1
  {
    i := 0;
    while arr[i] != Null
      invariant i < |arr|
      decreases |arr| - i
    {
      i := i + 1;
    }
  }

  // ---------- Building the array ----------

  /** The copy loops: `head` first, then argv with its NULL, then one more NULL. */
  method Fill(a: array<Ptr>, head: seq<Ptr>, argv: seq<Ptr>)
    requires ArgvOk(argv) && |head| + |argv| + 1 <= a.Length
    modifies a
    ensures a[..|head| + |argv| + 1] == head + argv + [Null]
  {
    var n := |head|;
    var i := 0;
    while i < n
      invariant i <= n && a[..i] == head[..i]
    {
      a[i] := head[i];
      i := i + 1;
    }
    i := 0;
    while i <= |argv| - 1
      invariant i <= |argv| && a[..n] == head && a[n..n + i] == argv[..i]
    {
      a[n + i] := argv[i];
      assert a[n..n + i + 1] == a[n..n + i] + [argv[i]];
      i := i + 1;
    }
    a[n + |argv|] := Null;
    assert a[..n + |argv| + 1] == a[..n] + a[n..n + |argv|] + [Null];
  }

  lemma FilledDenotes(page: seq<byte>, a: seq<Ptr>, head: seq<Ptr>, argv: seq<Ptr>)
    requires ArgvOk(argv) && |head| + |argv| + 1 <= |a| && a[..|head| + |argv| + 1] == head + argv + [Null]
    requires forall i :: 0 <= i < |head| ==> !head[i].Null?
    ensures Denotes(page, a) == Denotes(page, head) + Denotes([], argv)
    ensures Contained(page, a) <==> Contained(page, head)
  {
    hide HasNul;
    var texts := argv[..|argv| - 1];
    var rest := a[|head| + |argv| - 1..];
    assert argv == texts + [Null];
    assert a == head + (texts + rest) by {
      assert a == a[..|head| + |argv| + 1] + a[|head| + |argv| + 1..];
    }
    assert rest[0] == a[..|head| + |argv| + 1][|head| + |argv| - 1] == Null;
    ContainedPrefix(page, head, texts + rest);
    ContainedPrefix(page, texts, rest);
    ContainedEach(page, texts);
    DenotesPrefix(page, head, texts + rest);
    DenotesPrefix(page, texts, rest);
    DenotesPrefix([], texts, [Null]);
    DenotesTexts(page, [], texts);
  }

  /** The ELF branch: the sandbox, the loader, then all of argv. */
  method BuildElf(sandbox: seq<byte>, loader: seq<byte>, argv: seq<Ptr>) returns (a: array<Ptr>)
    requires ArgvOk(argv)
    ensures fresh(a) && Denotes([], a[..]) == [sandbox, loader] + Denotes([], argv)
  {
    var arglen := GetLen(argv);
    a := new Ptr[arglen + 4](_ => Null);
    var head := [Text(sandbox), Text(loader)];
    Fill(a, head, argv);
    FilledDenotes([], a[..], head, argv);
    DenotesEach([], head);
  }

  /** The page after tokenising: NUL at the end of the interpreter and of the argument string. */
  function Tokenised(page: seq<byte>): (r: seq<byte>)
    requires |page| >= 2 && InterpEnd(page) < |page| && ArgEnd(page) < |page|
    ensures |r| == |page|
  {
    if page[InterpEnd(page)] == NEWLINE then page[InterpEnd(page) := NUL]
    else page[ArgEnd(page) := NUL][InterpEnd(page) := NUL]
  }

  /** What the script is started with: the sandbox, the loader, the interpreter, one string with all of its
      arguments if there are any, the script. */
  function Head(page: seq<byte>, sandbox: seq<byte>, loader: seq<byte>, filename: seq<byte>): (r: seq<Ptr>)
    requires |page| >= 2 && InterpEnd(page) < |page|
  {
    [Text(sandbox), Text(loader), InPage(InterpBegin(page))]
    + (if page[InterpEnd(page)] == NEWLINE then [Text(filename)] else [InPage(InterpEnd(page) + 1), Text(filename)])
  }

  /** Refused with ENOEXEC; the code would read or write the byte after the page; or the new array. */
  datatype Script = NoExec | PastPage | Built(argv: array<Ptr>)

  ghost predicate HasLineEnd(page: seq<byte>) { exists i :: 2 <= i < |page| && IsLineEnd(page[i]) }

  /** The script branch.  Its own accesses stay inside the page exactly when there is no interpreter or a line end.  The
      strings of the array end in the page exactly unless the interpreter's name ends with a NUL that no other NUL
      follows: then the argument pointer, one byte after that NUL, leads past the page. */
  method BuildScript(page: array<byte>, sandbox: seq<byte>, loader: seq<byte>, filename: seq<byte>, argv: seq<Ptr>)
    returns (r: Script)
    requires page.Length == EXECPGSIZE && ArgvOk(argv)
    modifies page
    ensures r.NoExec? <==> InterpBegin(old(page[..])) == InterpEnd(old(page[..]))
    ensures r.PastPage? <==> InterpBegin(old(page[..])) != InterpEnd(old(page[..])) && !HasLineEnd(old(page[..]))
    ensures !r.Built? ==> page[..] == old(page[..])
    ensures r.Built? ==> InterpEnd(old(page[..])) < EXECPGSIZE && ArgEnd(old(page[..])) < EXECPGSIZE
    ensures r.Built? ==> fresh(r.argv) && page[..] == Tokenised(old(page[..]))
    ensures r.Built? ==> (Denotes(page[..], r.argv[..]) ==
                          Denotes(page[..], Head(old(page[..]), sandbox, loader, filename)) + Denotes([], argv))
    ensures r.Built? ==> (Contained(page[..], r.argv[..]) <==> ArgumentInPage(old(page[..])))
  {
    ghost var before := page[..];
    LineEnds(before);
    hide HasLineEnd;
    var arglen := GetLen(argv);
    var interpBegin := ScanLoop(page, 2, NotBlank);
    var interpEnd := ScanLoop(page, interpBegin, Delimiter);
    if interpBegin == interpEnd || page[interpBegin] == NUL {
      return NoExec;
    }
    var a := new Ptr[arglen + 7](_ => Null);
    var head := [Text(sandbox), Text(loader), InPage(interpBegin)];
    if interpEnd == EXECPGSIZE {
      return PastPage;
    }
    if page[interpEnd] == NEWLINE {
      page[interpEnd] := NUL;
      head := head + [Text(filename)];
    } else {
      var argEnd := ScanLoop(page, interpEnd, LineEnd);
      if argEnd == EXECPGSIZE {
        return PastPage;
      }
      page[argEnd] := NUL;
      page[interpEnd] := NUL;
      head := head + [InPage(interpEnd + 1), Text(filename)];
    }
    assert page[..] == Tokenised(before) && head == Head(before, sandbox, loader, filename);
    Fill(a, head, argv);
    FilledDenotes(page[..], a[..], head, argv);
    HeadContained(before, sandbox, loader, filename);
    return Built(a);
  }

  /** The argument string, if there is one, ends in the page. */
  ghost predicate ArgumentInPage(page: seq<byte>)
    requires |page| >= 2 && InterpEnd(page) < |page|
  {
    page[InterpEnd(page)] != NUL || HasNul(page, InterpEnd(page) + 1)
  }

  lemma HeadContained(page: seq<byte>, sandbox: seq<byte>, loader: seq<byte>, filename: seq<byte>)
    requires |page| >= 2 && InterpEnd(page) < |page| && ArgEnd(page) < |page|
    ensures Contained(Tokenised(page), Head(page, sandbox, loader, filename)) <==> ArgumentInPage(page)
  {
    var b, e, x := InterpBegin(page), InterpEnd(page), ArgEnd(page);
    var after, head := Tokenised(page), Head(page, sandbox, loader, filename);
    ContainedEach(after, head);
    assert after[e] == NUL;
    assert HasNul(after, b);
    if page[e] == NUL {
      ScanIs(page, e, LineEnd, e);
      assert after == page;
      assert head[3] == InPage(e + 1);
    } else if page[e] != NEWLINE {
      assert e < x && after[x] == NUL;
      assert HasNul(after, e + 1);
    }
  }

  /** The scans stay in the page exactly when it has a line end. */
  lemma LineEnds(page: seq<byte>)
    requires |page| >= 2
    ensures HasLineEnd(page) <==> InterpEnd(page) < |page| && ArgEnd(page) < |page|
    ensures InterpEnd(page) < |page| && page[InterpEnd(page)] == NEWLINE ==> ArgEnd(page) < |page|
  {
    if HasLineEnd(page) {
      var i :| 2 <= i < |page| && IsLineEnd(page[i]);
      assert !IsBlank(page[i]);
      assert InterpBegin(page) <= i;
      assert InterpEnd(page) <= i;
      assert ArgEnd(page) <= i;
    }
    if InterpEnd(page) < |page| && ArgEnd(page) < |page| {
      assert IsLineEnd(page[ArgEnd(page)]);
    }
    if InterpEnd(page) < |page| && page[InterpEnd(page)] == NEWLINE {
      ScanIs(page, InterpEnd(page), LineEnd, InterpEnd(page));
    }
  }

  // ---------- Round trip ----------

  /** Spaces and tabs. */
  ghost predicate Blanks(s: seq<byte>) { forall i :: 0 <= i < |s| ==> s[i] == 32 || s[i] == 9 }

  /** An interpreter's name: no space, tab, newline or NUL. */
  ghost predicate Word(s: seq<byte>) {
    |s| > 0 && forall i :: 0 <= i < |s| ==> s[i] != 32 && s[i] != 9 && s[i] != 10 && s[i] != 0
  }

  /** No newline and no NUL. */
  ghost predicate OneLine(s: seq<byte>) { forall i :: 0 <= i < |s| ==> s[i] != 10 && s[i] != 0 }

  lemma FindsInterp(page: seq<byte>, mark: seq<byte>, blanks: seq<byte>, interp: seq<byte>, rest: seq<byte>)
    requires page == mark + blanks + interp + rest && |mark| == 2 && Blanks(blanks) && Word(interp)
    requires |rest| > 0 && StopsAt(Delimiter, rest[0])
    ensures InterpBegin(page) == 2 + |blanks| && InterpEnd(page) == 2 + |blanks| + |interp|
    ensures page[InterpBegin(page)..InterpEnd(page)] == interp && page[InterpEnd(page)..] == rest
  {
    var b, e := 2 + |blanks|, 2 + |blanks| + |interp|;
    assert forall k :: 2 <= k < b ==> page[k] == blanks[k - 2];
    assert forall k :: b <= k < e ==> page[k] == interp[k - b];
    assert page[b] == interp[0] && page[e] == rest[0];
    ScanIs(page, 2, NotBlank, b);
    ScanIs(page, b, Delimiter, e);
    assert page[b..e] == interp && page[e..] == rest;
  }

  lemma ResolvedInterp(page: seq<byte>, after: seq<byte>, b: nat, e: nat)
    requires b <= e < |page| == |after| && after[e] == NUL && Word(page[b..e]) && after[b..e] == page[b..e]
    ensures CString(after, b) == page[b..e]
  {
    forall k | b <= k < e ensures after[k] != NUL {
      assert after[k] == after[b..e][k - b] == page[b..e][k - b];
    }
    CStringIs(after, b, e);
  }

  /** `#!` blanks interpreter newline: the new arguments are sandbox, loader, interpreter, script. */
  lemma NoArgumentLine(page: seq<byte>, mark: seq<byte>, blanks: seq<byte>, interp: seq<byte>, tail: seq<byte>,
                       sandbox: seq<byte>, loader: seq<byte>, filename: seq<byte>)
    requires page == mark + blanks + interp + ([10] + tail) && |mark| == 2 && Blanks(blanks) && Word(interp)
    ensures InterpBegin(page) < InterpEnd(page) && InterpEnd(page) < |page| && ArgEnd(page) < |page|
    ensures Denotes(Tokenised(page), Head(page, sandbox, loader, filename)) == [sandbox, loader, interp, filename]
  {
    FindsInterp(page, mark, blanks, interp, [10] + tail);
    var b, e := InterpBegin(page), InterpEnd(page);
    ScanIs(page, e, LineEnd, e);
    var after := Tokenised(page);
    assert after[b..e] == page[b..e];
    ResolvedInterp(page, after, b, e);
    assert Head(page, sandbox, loader, filename) == [Text(sandbox), Text(loader), InPage(b), Text(filename)];
    DenotesEach(after, [Text(sandbox), Text(loader), InPage(b), Text(filename)]);
  }

  lemma FindsArgument(page: seq<byte>, e: nat, blank: byte, rest: seq<byte>, end: byte, tail: seq<byte>)
    requires e <= |page| && page[e..] == [blank] + rest + [end] + tail && IsBlank(blank) && IsLineEnd(end)
    requires OneLine(rest)
    ensures e + 1 + |rest| < |page| && Scan(page, e, LineEnd) == e + 1 + |rest|
    ensures page[e + 1..e + 1 + |rest|] == rest && page[e] == blank
  {
    var x := e + 1 + |rest|;
    assert page[e] == page[e..][0];
    assert page[x] == page[e..][x - e] == end;
    forall k | e < k < x ensures page[k] == rest[k - e - 1] {
      assert page[k] == page[e..][k - e];
    }
    ScanIs(page, e, LineEnd, x);
  }

  /** Where the line is cut: after the interpreter and after the rest. */
  lemma ArgumentCut(page: seq<byte>, interp: seq<byte>, rest: seq<byte>)
    requires |page| >= 2 && InterpBegin(page) < InterpEnd(page) < ArgEnd(page) < |page|
    requires page[InterpBegin(page)..InterpEnd(page)] == interp && IsBlank(page[InterpEnd(page)]) && Word(interp)
    requires page[InterpEnd(page) + 1..ArgEnd(page)] == rest && OneLine(rest)
    ensures CString(Tokenised(page), InterpBegin(page)) == interp
    ensures CString(Tokenised(page), InterpEnd(page) + 1) == rest
  {
    hide InterpBegin, InterpEnd, ArgEnd, CString;
    var b, e, x := InterpBegin(page), InterpEnd(page), ArgEnd(page);
    var after := Tokenised(page);
    assert after[b..e] == page[b..e];
    ResolvedInterp(page, after, b, e);
    assert after[e + 1..x] == page[e + 1..x];
    ResolvedRest(after, e + 1, x, rest);
  }

  /** `#!` blanks interpreter blank rest line-end: the rest of the line is one more argument, as it stands. */
  lemma ArgumentLine(page: seq<byte>, mark: seq<byte>, blanks: seq<byte>, interp: seq<byte>, blank: byte,
                     rest: seq<byte>, end: byte, tail: seq<byte>,
                     sandbox: seq<byte>, loader: seq<byte>, filename: seq<byte>)
    requires page == mark + blanks + interp + ([blank] + rest + [end] + tail) && |mark| == 2
    requires Blanks(blanks) && Word(interp) && OneLine(rest)
    requires (blank == 32 || blank == 9) && (end == 10 || end == 0)
    ensures InterpBegin(page) < InterpEnd(page) && InterpEnd(page) < |page| && ArgEnd(page) < |page|
    ensures Denotes(Tokenised(page), Head(page, sandbox, loader, filename)) == [sandbox, loader, interp, rest, filename]
  {
    var line := [blank] + rest + [end] + tail;
    FindsInterp(page, mark, blanks, interp, line);
    var b, e := InterpBegin(page), InterpEnd(page);
    FindsArgument(page, e, blank, rest, end, tail);
    ArgumentCut(page, interp, rest);
    hide InterpBegin, InterpEnd, ArgEnd, CString, Tokenised, Word, Blanks, OneLine;
    var h := [Text(sandbox), Text(loader), InPage(b), InPage(e + 1), Text(filename)];
    assert Head(page, sandbox, loader, filename) == h;
    DenotesEach(Tokenised(page), h);
  }

  lemma ResolvedRest(after: seq<byte>, from: nat, x: nat, rest: seq<byte>)
    requires from <= x < |after| && after[from..x] == rest && after[x] == NUL && OneLine(rest)
    ensures CString(after, from) == rest
  {
    forall k | from <= k < x ensures after[k] != NUL {
      assert after[k] == rest[k - from];
    }
    CStringIs(after, from, x);
  }

  // ---------- Lines that end right after the interpreter ----------

  lemma InterpIsWord(page: seq<byte>)
    requires |page| >= 2 && InterpBegin(page) < InterpEnd(page)
    ensures Word(page[InterpBegin(page)..InterpEnd(page)])
  {
    var b, e := InterpBegin(page), InterpEnd(page);
    forall i | 0 <= i < |page[b..e]| ensures !IsBlank(page[b..e][i]) && !IsLineEnd(page[b..e][i]) {
      assert !StopsAt(Delimiter, page[b + i]);
    }
  }

  /** A line without arguments starts the script without arguments exactly when it ends with a newline; with NUL, which
      is how the last line of a file without a newline ends, there is one string more. */
  lemma OnlyInterpIffNewline(page: seq<byte>, sandbox: seq<byte>, loader: seq<byte>, filename: seq<byte>)
    requires |page| >= 2 && InterpBegin(page) < InterpEnd(page) && InterpEnd(page) < |page| && ArgEnd(page) < |page|
    requires IsLineEnd(page[InterpEnd(page)])
    ensures page[InterpEnd(page)] == NEWLINE <==>
            (Denotes(Tokenised(page), Head(page, sandbox, loader, filename)) ==
             [sandbox, loader, page[InterpBegin(page)..InterpEnd(page)], filename])
    ensures page[InterpEnd(page)] == NUL ==>
              |Denotes(Tokenised(page), Head(page, sandbox, loader, filename))| == 5
  {
    var b, e, after := InterpBegin(page), InterpEnd(page), Tokenised(page);
    InterpIsWord(page);
    DenotesEach(after, Head(page, sandbox, loader, filename));
    if page[e] == NEWLINE {
      assert after[b..e] == page[b..e];
      ResolvedInterp(page, after, b, e);
      assert Head(page, sandbox, loader, filename) == [Text(sandbox), Text(loader), InPage(b), Text(filename)];
    }
  }

  /** Such a line: the name `/x` and NUL. */
  lemma NulLineHasFiveStrings(page: seq<byte>, tail: seq<byte>,
                              sandbox: seq<byte>, loader: seq<byte>, filename: seq<byte>)
    requires page == [35, 33] + [] + [47, 120] + ([NUL] + tail)
    ensures InterpEnd(page) < |page| && ArgEnd(page) < |page|
    ensures |Denotes(Tokenised(page), Head(page, sandbox, loader, filename))| == 5
  {
    FindsInterp(page, [35, 33], [], [47, 120], [NUL] + tail);
    assert page[InterpEnd(page)] == page[InterpEnd(page)..][0] == NUL;
    ScanIs(page, InterpEnd(page), LineEnd, InterpEnd(page));
    OnlyInterpIffNewline(page, sandbox, loader, filename);
  }

  /** A file of 4095 bytes with nothing but the interpreter's name: the argument pointer is the end of the page. */
  lemma ArgumentPointerPastPage(page: seq<byte>, interp: seq<byte>,
                                sandbox: seq<byte>, loader: seq<byte>, filename: seq<byte>)
    requires |page| == 4096 && page == [35, 33] + [] + interp + [0] && Word(interp)
    ensures InterpEnd(page) < |page| && ArgEnd(page) < |page| && HasLineEnd(page)
    ensures |Head(page, sandbox, loader, filename)| == 5
    ensures Head(page, sandbox, loader, filename)[3] == InPage(4096)
    ensures !Contained(Tokenised(page), Head(page, sandbox, loader, filename))
  {
    FindsInterp(page, [35, 33], [], interp, [NUL]);
    assert page[InterpEnd(page)] == page[InterpEnd(page)..][0] == NUL;
    ScanIs(page, InterpEnd(page), LineEnd, InterpEnd(page));
    assert InterpEnd(page) == EXECPGSIZE - 1;
    LineEnds(page);
    HeadContained(page, sandbox, loader, filename);
  }
}
