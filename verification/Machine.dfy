/** Widths and units that several parts of the system share. */
module Machine {

  type byte = x: int | 0 <= x < 256

  /** How many values an unsigned int has. */
  const UINT: nat := 0x1_0000_0000

  const PGSIZE: nat := 4096

  /** MAXVA / PGSIZE; walk panics at this page number and above. */
  const MAXPAGE: nat := 0x4000000

  /** A page of an address space: the page table and the virtual page number. */
  type Key = (nat, nat)

  /** The end of a memory operation: done, refused (the caller sees an error), or a kernel panic. */
  datatype Outcome = Done | Refused | Panic

  /** PGROUNDUP(sz) / PGSIZE: the number of pages that hold sz bytes. */
  function PagesIn(sz: nat): (v: nat)
    ensures v * PGSIZE >= sz && v * PGSIZE < sz + PGSIZE
  {
    (sz + PGSIZE - 1) / PGSIZE
  }

  const NUL: char := '\0'

  /** A C string's characters. */
  predicate NulFree(s: string) {
    forall i :: 0 <= i < |s| ==> s[i] != NUL
  }
}
