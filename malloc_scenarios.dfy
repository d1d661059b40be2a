/**
 * Concrete runs of the allocator model from a fresh heap, with the OS
 * granting every extension unless a lemma says otherwise.
 */
module MallocScenarios {
  import opened MallocSpec
  import opened MallocProps

  /** The heap after malloc(400) from a fresh break at `start`. */
  function OneBlock(start: int): State {
    State(start, [Block(start, 400, false)], start + 424, map[])
  }

  /** The heap holding the 400-byte block A and then the 4-byte block B, with their flags. */
  function TwoBlocks(start: int, freeA: bool, freeB: bool): State {
    State(start, [Block(start, 400, freeA), Block(start + 424, 4, freeB)], start + 452, map[])
  }

  /*
   * The run malloc(400) = A, malloc(4) = B, free(A), free(B), malloc(4), in
   * four steps: the last call returns A again, not B. First fit takes the
   * earliest block that fits, does not split it, and leaves B free and unused.
   */

  /** malloc(400) on a fresh heap creates A at the initial break; `global_base` becomes A. */
  lemma FirstMallocCreatesA(start: int)
    requires start > NULL
    ensures Malloc(Init(start), 400, true) == Ok(OneBlock(start), start + META_SIZE)
  {
    InitInv(start);
    MallocResult(Init(start), 400, true);
  }

  /** malloc(4) finds no free block and appends B right after A. */
  lemma SecondMallocCreatesB(start: int)
    requires start > NULL
    ensures Malloc(OneBlock(start), 4, true) == Ok(TwoBlocks(start, false, false), start + 448)
  {
    assert Inv(OneBlock(start));
    MallocResult(OneBlock(start), 4, true);
  }

  /** free(A) and then free(B) each set only their own block's flag. */
  lemma FreeAThenB(start: int)
    requires start > NULL
    ensures Issued(TwoBlocks(start, false, false), start + META_SIZE)
    ensures Free(TwoBlocks(start, false, false), start + META_SIZE) == Ok(TwoBlocks(start, true, false), ())
    ensures Issued(TwoBlocks(start, true, false), start + 448)
    ensures Free(TwoBlocks(start, true, false), start + 448) == Ok(TwoBlocks(start, true, true), ())
  {
    var s2 := TwoBlocks(start, false, false);
    var s3 := TwoBlocks(start, true, false);
    assert Inv(s2) && Inv(s3);
    FreeResult(s2, 0);
    assert s2.blocks[0 := s2.blocks[0].(free := true)] == s3.blocks;
    FreeResult(s3, 1);
    assert s3.blocks[1 := s3.blocks[1].(free := true)] == TwoBlocks(start, true, true).blocks;
  }

  /** With A and B both free, malloc(4) returns A, the first block that fits, and changes nothing. */
  lemma MallocReusesA(start: int)
    requires start > NULL
    ensures Malloc(TwoBlocks(start, true, true), 4, true) == Ok(TwoBlocks(start, true, true), start + META_SIZE)
  {
    assert Inv(TwoBlocks(start, true, true));
    MallocResult(TwoBlocks(start, true, true), 4, true);
  }

  /**
   * A reused block stays marked free (line 104 runs only for a new block):
   * after free(A), two malloc(4) calls both return A, and freeing it once
   * aborts at the assert of line 130.
   */
  lemma ReusedBlockStaysFree(start: int)
    requires start > NULL
    ensures
      var a := start + META_SIZE;
      var s := State(start, [Block(start, 400, true)], start + 424, map[]);
      && Malloc(s, 4, true) == Ok(s, a)
      && Malloc(Malloc(s, 4, true).state, 4, true) == Ok(s, a)
      && Issued(s, a) && Free(s, a) == Aborted
  {
    var s := State(start, [Block(start, 400, true)], start + 424, map[]);
    assert Inv(s);
    MallocResult(s, 4, true);
    HeaderOfPayload(s, 0);
    FreeResult(s, 0);
  }

  /**
   * Growing a pointer that malloc handed out from the free list aborts: the
   * new block is created and filled, then the free of the old pointer finds
   * its flag still set.
   */
  lemma ReallocOfReusedBlockAborts(start: int)
    requires start > NULL
    ensures
      var a := start + META_SIZE;
      var s := State(start, [Block(start, 400, true)], start + 424, map[]);
      && Malloc(s, 4, true) == Ok(s, a)
      && Issued(s, a) && Realloc(s, a, 500, true) == Aborted
  {
    var s := State(start, [Block(start, 400, true)], start + 424, map[]);
    assert Inv(s);
    MallocResult(s, 4, true);
    ReallocGrowAborts(s, 0, 500, true);
  }

  /** A refused heap extension aborts the very first malloc instead of returning NULL. */
  lemma RefusedExtensionAborts(start: int, size: Size)
    requires start > NULL && size > 0
    ensures Malloc(Init(start), size, false) == Aborted
  {
    InitInv(start);
    MallocResult(Init(start), size, false);
  }

  /**
   * calloc's product wraps: 2^32 elements of 2^32 bytes ask malloc for zero
   * bytes and get NULL with the heap unchanged, and (2^32 + 1) elements of
   * 2^32 bytes ask for only 2^32 bytes.
   */
  lemma CallocProductWraps(s: State, os: bool)
    requires Inv(s)
    ensures Calloc(s, 0x1_0000_0000, 0x1_0000_0000, os) == Ok(s, NULL)
    ensures CallocSize(0x1_0000_0001, 0x1_0000_0000) == 0x1_0000_0000
  {
    CallocResult(s, 0x1_0000_0000, 0x1_0000_0000, os);
  }
}
