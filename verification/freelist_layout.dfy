/** Record layout of the in-zone free list (ccontrol/lib/freelist.h), for an
    LP64 build: `size_t`, `unsigned long` and pointers are eight bytes wide.

    Addresses inside a zone are byte offsets from the zone's start; the dummy
    head record sits at offset HEAD. */
module FreelistLayout {

  /** sizeof(size_t) == sizeof(void *) on the modelled build. */
  const WORD: nat := 8

  /** size_t arithmetic is modulo 2^64. */
  const SIZE_MOD: nat := 0x1_0000_0000_0000_0000

  /** HEADER_SIZE: an allocated block is preceded by one size word. */
  const HEADER_SIZE: nat := WORD

  /** sizeof(fl): a free-list record is exactly {size, next}. It is the
      alignment of every block and the smallest remainder kept as a node. */
  const FL_SIZE: nat := 2 * WORD

  /** ALLOCATOR_OVERHEAD: one full record for the dummy head plus the header
      of a single allocation. */
  const ALLOCATOR_OVERHEAD: nat := FL_SIZE + HEADER_SIZE

  /** Offset of the dummy head record, at the very start of the zone. */
  const HEAD: nat := 0

  /** A pointer into the zone, or NULL. */
  datatype Ptr = Null | At(off: nat)

  /** FL_TO_VOID: the user pointer of the block whose record starts at `block`. */
  function FlToVoid(block: nat): nat
  {
    block + HEADER_SIZE
  }

  /** VOID_TO_FL: the record behind a user pointer; it undoes FL_TO_VOID. */
  function VoidToFl(p: nat): (block: nat)
    requires p >= HEADER_SIZE
    ensures FlToVoid(block) == p
  {
    p - HEADER_SIZE
  }

  /** VOID_TO_FL recovers every record FL_TO_VOID was applied to, and the
      user pointer always lies one header past its record. */
  lemma VoidToFlAfterFlToVoid(block: nat)
    ensures FlToVoid(block) >= HEADER_SIZE
    ensures VoidToFl(FlToVoid(block)) == block
  {
  }
}
