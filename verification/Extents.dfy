/** check_extent and check_iovec: which memory references of the sandboxed program are let through. */
module Extents {
  import opened Common
  import opened AddressSpace

  /** The bytes of the range belong to the program image or, with DUNE, to the mapping window. */
  predicate Inside(base: nat, dune: bool, ptr: nat, len: nat) {
    || ptr + len <= 0x7000_0000
    || (dune && base <= ptr && ptr + len < base + 0x2_0000_0000)
  }

  /** For ranges that do not wrap, the 64-bit test accepts exactly the ranges inside. */
  lemma SafeIffInside(base: nat, dune: bool, ptr: nat, len: nat)
    requires ptr + len < WORD
    ensures MemRefIsSafe(base, dune, ptr, len) <==> Inside(base, dune, ptr, len)
  {
    assert (ptr + len) % WORD == ptr + len;
  }

  /** The test accepts a range that is not inside exactly when the range wraps and is short. */
  lemma AcceptedOutside(base: nat, dune: bool, ptr: nat, len: nat)
    requires ptr < WORD && len < WORD && base + APP_MMAP_LEN <= TASK_SIZE
    ensures (MemRefIsSafe(base, dune, ptr, len) && !Inside(base, dune, ptr, len)) <==>
            (WORD <= ptr + len && (len <= APP_MAX_ELF_VADDR || (dune && len <= APP_MMAP_LEN)))
  {
    if ptr + len < WORD {
      SafeIffInside(base, dune, ptr, len);
    } else {
      assert (ptr + len) % WORD == ptr + len - WORD;
    }
  }

  /** Such a range: the last byte of the address space. */
  lemma LastByteAccepted()
    ensures MemRefIsSafe(0x4_0000_0000, false, WORD - 1, 1) && !Inside(0x4_0000_0000, false, WORD - 1, 1)
  {
  }

  datatype IoVec = IoVec(base: nat, len: nat)

  const IOVEC_SIZE: nat := 16

  /** sizeof(*iov) * num, with the int num converted to size_t. */
  function VectorBytes(num: int): (r: nat) { IOVEC_SIZE * (num % WORD) % WORD }

  /** check_iovec; `read` is what the vector's memory holds, which matters only once the vector itself is safe. */
  method CheckIovec(base: nat, dune: bool, iov: nat, num: int, read: seq<IoVec>) returns (ok: bool)
    requires -0x8000_0000 <= num < 0x8000_0000 && num <= |read|
    ensures ok <==> (
              && 0 <= num && MemRefIsSafe(base, dune, iov, 16 * num)
              && forall i :: 0 <= i < num ==> MemRefIsSafe(base, dune, read[i].base, read[i].len))
  {
    NegativeCount(base, dune, iov, num);
    if !MemRefIsSafe(base, dune, iov, VectorBytes(num)) {
      return false;
    }
    var n, at := num, 0;
    while n != 0
      invariant 0 <= n && at + n == num
      invariant forall i :: 0 <= i < at ==> MemRefIsSafe(base, dune, read[i].base, read[i].len)
      decreases n
    {
      n := n - 1;
      if !MemRefIsSafe(base, dune, read[at].base, read[at].len) {
        return false;
      }
      at := at + 1;
    }
    return true;
  }

  /** A negative count asks for more bytes than any window holds, so the vector itself is refused. */
  lemma NegativeCount(base: nat, dune: bool, iov: nat, num: int)
    requires -0x8000_0000 <= num < 0x8000_0000
    ensures num < 0 ==> !MemRefIsSafe(base, dune, iov, VectorBytes(num))
  {
    if num < 0 {
      assert num % WORD == num + WORD;
      assert IOVEC_SIZE * (num + WORD) == (WORD + IOVEC_SIZE * num) + 15 * WORD;
      assert VectorBytes(num) == WORD + IOVEC_SIZE * num;
    }
  }

  /** What an accepted vector means: a byte of any buffer that does not wrap is the program's own. */
  lemma AcceptedVectorInside(base: nat, dune: bool, read: seq<IoVec>, num: nat, i: nat, a: nat)
    requires num <= |read| && i < num
    requires forall i :: 0 <= i < num ==> MemRefIsSafe(base, dune, read[i].base, read[i].len)
    requires read[i].base + read[i].len < WORD && read[i].base <= a < read[i].base + read[i].len
    ensures a < APP_MAX_ELF_VADDR || (dune && base <= a < base + APP_MMAP_LEN)
  {
    SafeIffInside(base, dune, read[i].base, read[i].len);
  }
}
