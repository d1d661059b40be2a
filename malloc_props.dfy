/**
 * Properties of the value-level allocator model: the heap layout every
 * operation preserves, the first-fit choice, and what each public operation
 * promises about its result and the new heap.
 */
module MallocProps {
  import opened MallocSpec

  /** The block whose payload `ptr` is. */
  function BlockOf(s: State, ptr: int): Block
    requires Issued(s, ptr) && ptr != NULL
  {
    s.blocks[IndexOf(s.blocks, GetBlockPtr(ptr))]
  }

  /** Blocks keep their address and size and are never removed: only `free` may differ. */
  ghost predicate ShapeKept(bs: seq<Block>, bs2: seq<Block>) {
    |bs| <= |bs2| && forall i :: 0 <= i < |bs| ==> bs2[i].addr == bs[i].addr && bs2[i].size == bs[i].size
  }

  // ---------------------------------------------------------------- layout

  /** Blocks lie in increasing address order without overlap. */
  lemma {:induction false} Ordered(s: State, i: nat, j: nat)
    requires Inv(s) && i < j < |s.blocks|
    ensures End(s.blocks[i]) <= s.blocks[j].addr
    decreases j - i
  {
    if j > i + 1 {
      Ordered(s, i, j - 1);
      assert s.blocks[j].addr == End(s.blocks[j - 1]);
    }
  }

  /** Every block, header and payload, lies between the initial break and the current one. */
  lemma BlockBounds(s: State, i: nat)
    requires Inv(s) && i < |s.blocks|
    ensures s.start <= s.blocks[i].addr && End(s.blocks[i]) <= s.brk
  {
    if i > 0 { Ordered(s, 0, i); }
    if i < |s.blocks| - 1 { Ordered(s, i, |s.blocks| - 1); }
  }

  /** The break never sits below the initial break, so it is neither NULL nor sbrk's failure value. */
  lemma BreakAboveStart(s: State)
    requires Inv(s)
    ensures s.start <= s.brk && s.brk != NULL && s.brk != SBRK_FAILED
  {
    if s.blocks != [] { BlockBounds(s, |s.blocks| - 1); }
  }

  /** Two different blocks never share a byte. */
  lemma Disjoint(s: State, i: nat, j: nat)
    requires Inv(s) && i < |s.blocks| && j < |s.blocks| && i != j
    ensures End(s.blocks[i]) <= s.blocks[j].addr || End(s.blocks[j]) <= s.blocks[i].addr
  {
    if i < j { Ordered(s, i, j); } else { Ordered(s, j, i); }
  }

  /** get_block_ptr undoes `block + 1`, and the header it finds is block k's. */
  lemma HeaderOfPayload(s: State, k: nat)
    requires Inv(s) && k < |s.blocks|
    ensures GetBlockPtr(Payload(s.blocks[k])) == s.blocks[k].addr
    ensures Issued(s, Payload(s.blocks[k])) && Payload(s.blocks[k]) != NULL
    ensures IndexOf(s.blocks, GetBlockPtr(Payload(s.blocks[k]))) == k
  {
    BlockBounds(s, k);
    assert HasBlockAt(s.blocks, s.blocks[k].addr);
    var j := IndexOf(s.blocks, s.blocks[k].addr);
    if j < k { Ordered(s, j, k); }
  }

  /** Changing one block's `free` flag keeps the heap well formed. */
  lemma FlagKeepsInv(s: State, k: nat, f: bool)
    requires Inv(s) && k < |s.blocks|
    ensures Inv(s.(blocks := s.blocks[k := s.blocks[k].(free := f)]))
  {
    var s2 := s.(blocks := s.blocks[k := s.blocks[k].(free := f)]);
    forall i | 0 <= i < |s2.blocks| - 1
      ensures s2.blocks[i + 1].addr == End(s2.blocks[i])
    {
      assert s2.blocks[i].addr == s.blocks[i].addr && s2.blocks[i].size == s.blocks[i].size;
      assert s2.blocks[i + 1].addr == s.blocks[i + 1].addr;
    }
  }

  /** Writing bytes inside block j's payload keeps every byte with a value inside the heap. */
  lemma MemWriteKeepsInv(s: State, j: nat, m2: map<int, Byte>, dst: int, n: nat)
    requires Inv(s) && j < |s.blocks| && Payload(s.blocks[j]) <= dst && dst + n <= End(s.blocks[j])
    requires forall a :: !(dst <= a < dst + n) ==> Load(m2, a) == Load(s.mem, a)
    ensures Inv(s.(mem := m2))
  {
    BlockBounds(s, j);
    forall a | a in m2 ensures s.start <= a < s.brk {
      if !(dst <= a < dst + n) { assert Load(m2, a) == Load(s.mem, a); }
    }
  }

  /** The initial heap is well formed and `global_base` is NULL. */
  lemma InitInv(start: int)
    requires start > NULL
    ensures Inv(Init(start)) && GlobalBase(Init(start)) == NULL
  {
  }

  /** Appending at the break keeps the blocks tiling the heap. */
  lemma AppendedInv(s: State, size: Size)
    requires Inv(s)
    ensures Inv(Appended(s, size))
    ensures GlobalBase(Appended(s, size)) == if s.blocks == [] then s.brk else GlobalBase(s)
  {
    var s2 := Appended(s, size);
    var n := |s.blocks|;
    BreakAboveStart(s);
    forall i | 0 <= i < |s2.blocks| - 1
      ensures s2.blocks[i + 1].addr == End(s2.blocks[i])
    {
      if i + 1 == n { assert s2.blocks[i] == s.blocks[n - 1]; }
      else { assert s2.blocks[i] == s.blocks[i] && s2.blocks[i + 1] == s.blocks[i + 1]; }
    }
  }

  // ---------------------------------------------------------- request_space

  /**
   * On a well-formed heap request_space either appends a block of exactly
   * `size` bytes at the old break, advancing it by size + META_SIZE, or,
   * when the OS refuses, aborts at the assert: it never returns NULL.
   */
  lemma RequestSpaceResult(s: State, size: Size, os: bool)
    requires Inv(s)
    ensures RequestSpace(s, size, os) == if os then Ok(Appended(s, size), s.brk) else Aborted
    ensures os ==> Inv(Appended(s, size))
  {
    BreakAboveStart(s);
    AppendedInv(s, size);
  }

  // ------------------------------------------------------------------ malloc

  /** malloc(0) returns NULL and leaves the heap as it was. */
  lemma MallocZero(s: State, os: bool)
    ensures Malloc(s, 0, os) == Ok(s, NULL)
  {
  }

  /**
   * malloc(size), size > 0: on a hit, the first-fit block's payload with the
   * heap untouched (so the block is still marked free); on a miss, a new
   * block after the tail, or an abort when the OS refuses.
   */
  lemma MallocResult(s: State, size: Size, os: bool)
    requires Inv(s) && size > 0
    ensures FirstFit(s.blocks, size).Some? ==>
      var k := FirstFit(s.blocks, size).value;
      Malloc(s, size, os) == Ok(s, Payload(s.blocks[k])) && s.blocks[k].free
    ensures FirstFit(s.blocks, size).None? ==>
      Malloc(s, size, os) == if os then Ok(Appended(s, size), s.brk + META_SIZE) else Aborted
  {
    RequestSpaceResult(s, size, os);
    BreakAboveStart(s);
  }

  /** The first block ever created becomes `global_base`, at the initial break. */
  lemma MallocFirstCall(s: State, size: Size)
    requires Inv(s) && s.blocks == [] && size > 0
    ensures Malloc(s, size, true).Ok?
    ensures GlobalBase(Malloc(s, size, true).state) == s.start
    ensures Malloc(s, size, true).value == s.start + META_SIZE
  {
    MallocResult(s, size, true);
  }

  /**
   * Whatever malloc returns on a well-formed heap: the heap stays well
   * formed, `global_base` once set stays put, and the result is NULL exactly
   * for a zero request; any other result is the payload of a block of at
   * least `size` bytes.
   */
  lemma MallocOk(s: State, size: Size, os: bool)
    requires Inv(s) && Malloc(s, size, os).Ok?
    ensures var r := Malloc(s, size, os);
      && Inv(r.state)
      && (GlobalBase(s) != NULL ==> GlobalBase(r.state) == GlobalBase(s))
      && (r.value == NULL <==> size == 0)
      && (r.value != NULL ==> Issued(r.state, r.value) && BlockOf(r.state, r.value).size >= size
                              && Payload(BlockOf(r.state, r.value)) == r.value)
  {
    if size > 0 {
      MallocResult(s, size, os);
      var r := Malloc(s, size, os);
      match FirstFit(s.blocks, size)
      case Some(k) =>
        HeaderOfPayload(s, k);
      case None =>
        AppendedInv(s, size);
        HeaderOfPayload(r.state, |s.blocks|);
    }
  }

  /** malloc never lowers the break. */
  lemma MallocGrowth(s: State, size: Size, os: bool)
    requires Inv(s) && Malloc(s, size, os).Ok?
    ensures s.brk <= Malloc(s, size, os).state.brk
  {
    if size > 0 { MallocResult(s, size, os); }
  }

  // -------------------------------------------------------------------- free

  /** free(NULL) does nothing. */
  lemma FreeNull(s: State)
    ensures Free(s, NULL) == Ok(s, ())
  {
  }

  /**
   * free of block k's payload aborts exactly when the block is already marked
   * free; otherwise it sets that one flag and changes nothing else.
   */
  lemma FreeResult(s: State, k: nat)
    requires Inv(s) && k < |s.blocks|
    ensures Issued(s, Payload(s.blocks[k]))
    ensures Free(s, Payload(s.blocks[k])).Aborted? <==> s.blocks[k].free
    ensures !s.blocks[k].free ==>
      Free(s, Payload(s.blocks[k])) == Ok(s.(blocks := s.blocks[k := s.blocks[k].(free := true)]), ())
    ensures !s.blocks[k].free ==> Inv(Free(s, Payload(s.blocks[k])).state)
  {
    HeaderOfPayload(s, k);
  }

  /**
   * A freed block is reusable: a following malloc of at most its size is
   * served without growing the heap, by that block or by an earlier one, and
   * by that very block when no earlier block fits.
   */
  lemma FreeThenMallocReuses(s: State, k: nat, n: Size, os: bool)
    requires Inv(s) && k < |s.blocks| && !s.blocks[k].free && 0 < n <= s.blocks[k].size
    ensures Issued(s, Payload(s.blocks[k]))
    ensures Free(s, Payload(s.blocks[k])).Ok?
    ensures var s1 := Free(s, Payload(s.blocks[k])).state;
      var r := Malloc(s1, n, os);
      && r.Ok? && r.state == s1 && r.value <= Payload(s.blocks[k])
      && ((forall j :: 0 <= j < k ==> !Fits(s.blocks[j], n)) ==> r.value == Payload(s.blocks[k]))
  {
    FreeResult(s, k);
    var s1 := Free(s, Payload(s.blocks[k])).state;
    assert Fits(s1.blocks[k], n);
    var j := FirstFit(s1.blocks, n).value;
    MallocResult(s1, n, os);
    if j < k { Ordered(s, j, k); }
    assert (forall i :: 0 <= i < k ==> !Fits(s.blocks[i], n)) ==> j == k by {
      if j < k { assert s1.blocks[j] == s.blocks[j]; }
    }
  }

  // ----------------------------------------------------------------- realloc

  /** realloc(NULL, n) is malloc(n). */
  lemma ReallocNull(s: State, size: Size, os: bool)
    ensures Issued(s, NULL) && Realloc(s, NULL, size, os) == Malloc(s, size, os)
  {
  }

  /** When the block already holds `size` bytes realloc returns the same pointer and changes nothing. */
  lemma ReallocInPlace(s: State, k: nat, size: Size, os: bool)
    requires Inv(s) && k < |s.blocks| && s.blocks[k].size >= size
    ensures Issued(s, Payload(s.blocks[k]))
    ensures Realloc(s, Payload(s.blocks[k]), size, os) == Ok(s, Payload(s.blocks[k]))
  {
    HeaderOfPayload(s, k);
  }

  /**
   * The growing path of realloc spelled out on a well-formed heap: malloc,
   * then the copy of the old block's `size` bytes, then free of the old
   * pointer, which aborts when that block is already marked free.
   */
  lemma ReallocGrows(s: State, k: nat, size: Size, os: bool)
    requires Inv(s) && k < |s.blocks| && s.blocks[k].size < size
    ensures Issued(s, Payload(s.blocks[k]))
    ensures Malloc(s, size, os).Aborted? ==> Realloc(s, Payload(s.blocks[k]), size, os).Aborted?
    ensures Malloc(s, size, os).Ok? ==>
      var m := Malloc(s, size, os);
      var s2 := m.state.(mem := Copy(m.state.mem, m.value, Payload(s.blocks[k]), s.blocks[k].size));
      && m.value != NULL && k < |s2.blocks|
      && Realloc(s, Payload(s.blocks[k]), size, os) ==
           if s.blocks[k].free then Aborted
           else Ok(s2.(blocks := s2.blocks[k := s.blocks[k].(free := true)]), m.value)
  {
    HeaderOfPayload(s, k);
    var m := Malloc(s, size, os);
    if m.Ok? {
      MallocOk(s, size, os);
      assert m.state.blocks[k] == s.blocks[k];
      HeaderOfPayload(m.state, k);
    }
  }

  /**
   * The growing path of realloc once malloc has returned: the heap with the
   * old block's bytes copied to the new pointer is well formed, still holds
   * the old block unchanged at index k, and realloc's outcome is that of
   * freeing the old pointer in it.
   */
  lemma ReallocAfterCopy(s: State, k: nat, size: Size, os: bool)
    requires Inv(s) && k < |s.blocks| && s.blocks[k].size < size && Malloc(s, size, os).Ok?
    ensures Issued(s, Payload(s.blocks[k]))
    ensures var m := Malloc(s, size, os);
      var s2 := m.state.(mem := Copy(m.state.mem, m.value, Payload(s.blocks[k]), s.blocks[k].size));
      && m.value != NULL && Inv(s2) && k < |s2.blocks| && s2.blocks[k] == s.blocks[k]
      && Issued(s2, Payload(s.blocks[k]))
      && (Free(s2, Payload(s.blocks[k])).Aborted? <==> s.blocks[k].free)
      && Realloc(s, Payload(s.blocks[k]), size, os) ==
           match Free(s2, Payload(s.blocks[k]))
           case Aborted => Aborted
           case Ok(s3, _) => Ok(s3, m.value)
  {
    ReallocGrows(s, k, size, os);
    var m := Malloc(s, size, os);
    MallocOk(s, size, os);
    var s1 := m.state;
    var ob := s.blocks[k];
    var j := IndexOf(s1.blocks, GetBlockPtr(m.value));
    BlockBounds(s1, j);
    var s2 := s1.(mem := Copy(s1.mem, m.value, Payload(ob), ob.size));
    MemWriteKeepsInv(s1, j, s2.mem, m.value, ob.size);
    assert s2.blocks[k] == ob;
    FreeResult(s2, k);
  }

  /**
   * Growing realloc aborts exactly when malloc would abort or the old block
   * is already marked free (the free at line 160 trips its assert); it never
   * returns NULL.
   */
  lemma ReallocGrowAborts(s: State, k: nat, size: Size, os: bool)
    requires Inv(s) && k < |s.blocks| && s.blocks[k].size < size
    ensures Issued(s, Payload(s.blocks[k]))
    ensures Realloc(s, Payload(s.blocks[k]), size, os).Aborted? <==> Malloc(s, size, os).Aborted? || s.blocks[k].free
    ensures Realloc(s, Payload(s.blocks[k]), size, os).Ok? ==> Realloc(s, Payload(s.blocks[k]), size, os).value != NULL
  {
    ReallocGrows(s, k, size, os);
  }

  /** The heap a completed growing realloc leaves: malloc's, with the bytes copied and the old block marked free. */
  lemma ReallocMovedState(s: State, k: nat, size: Size, os: bool)
    requires Inv(s) && k < |s.blocks| && s.blocks[k].size < size
    requires Issued(s, Payload(s.blocks[k])) && Realloc(s, Payload(s.blocks[k]), size, os).Ok?
    ensures Malloc(s, size, os).Ok? && !s.blocks[k].free
    ensures var m := Malloc(s, size, os);
      var ob := s.blocks[k];
      && k < |m.state.blocks| && m.state.blocks[k] == ob
      && Realloc(s, Payload(ob), size, os) ==
           Ok(m.state.(mem := Copy(m.state.mem, m.value, Payload(ob), ob.size),
                       blocks := m.state.blocks[k := ob.(free := true)]), m.value)
  {
    ReallocGrows(s, k, size, os);
    MallocOk(s, size, os);
  }

  /**
   * The heap after the copy into block j and the free of block k (j != k) is
   * well formed, and block j is still found at the pointer p it serves.
   */
  lemma MovedHeapFacts(s1: State, k: nat, j: nat, p: int, n: nat, src: int)
    requires Inv(s1) && k < |s1.blocks| && j < |s1.blocks| && j != k
    requires p == Payload(s1.blocks[j]) && n <= s1.blocks[j].size
    ensures var s3 := s1.(mem := Copy(s1.mem, p, src, n), blocks := s1.blocks[k := s1.blocks[k].(free := true)]);
      && Inv(s3) && Issued(s3, p) && p != NULL && s3.blocks[j] == s1.blocks[j]
      && IndexOf(s3.blocks, GetBlockPtr(p)) == j
  {
    var s2 := s1.(mem := Copy(s1.mem, p, src, n));
    MemWriteKeepsInv(s1, j, s2.mem, p, n);
    FlagKeepsInv(s2, k, true);
    HeaderOfPayload(s2.(blocks := s2.blocks[k := s2.blocks[k].(free := true)]), j);
  }

  /** A completed growing realloc keeps the heap well formed and does not lower the break. */
  lemma ReallocMovesInv(s: State, k: nat, size: Size, os: bool)
    requires Inv(s) && k < |s.blocks| && s.blocks[k].size < size
    requires Issued(s, Payload(s.blocks[k])) && Realloc(s, Payload(s.blocks[k]), size, os).Ok?
    ensures var r := Realloc(s, Payload(s.blocks[k]), size, os);
      Inv(r.state) && s.brk <= r.state.brk
  {
    ReallocMovedState(s, k, size, os);
    var m := Malloc(s, size, os);
    MallocOk(s, size, os);
    MallocGrowth(s, size, os);
    var j := IndexOf(m.state.blocks, GetBlockPtr(m.value));
    MovedHeapFacts(m.state, k, j, m.value, s.blocks[k].size, Payload(s.blocks[k]));
  }

  /** A completed growing realloc returns the payload of a different block of at least `size` bytes. */
  lemma ReallocMovesTarget(s: State, k: nat, size: Size, os: bool)
    requires Inv(s) && k < |s.blocks| && s.blocks[k].size < size
    requires Issued(s, Payload(s.blocks[k])) && Realloc(s, Payload(s.blocks[k]), size, os).Ok?
    ensures var r := Realloc(s, Payload(s.blocks[k]), size, os);
      && r.value != NULL && r.value != Payload(s.blocks[k])
      && Issued(r.state, r.value) && BlockOf(r.state, r.value).size >= size
      && Payload(BlockOf(r.state, r.value)) == r.value
  {
    ReallocMovedState(s, k, size, os);
    var m := Malloc(s, size, os);
    MallocOk(s, size, os);
    var j := IndexOf(m.state.blocks, GetBlockPtr(m.value));
    MovedHeapFacts(m.state, k, j, m.value, s.blocks[k].size, Payload(s.blocks[k]));
  }

  /** A completed growing realloc marks the old block free and appends at most one block. */
  lemma ReallocMovesExtends(s: State, k: nat, size: Size, os: bool)
    requires Inv(s) && k < |s.blocks| && s.blocks[k].size < size
    requires Issued(s, Payload(s.blocks[k])) && Realloc(s, Payload(s.blocks[k]), size, os).Ok?
    ensures var r := Realloc(s, Payload(s.blocks[k]), size, os);
      Extends(s.blocks[k := s.blocks[k].(free := true)], r.state.blocks)
  {
    ReallocMovedState(s, k, size, os);
  }

  /**
   * A growing realloc that completes copies the old block's contents: the
   * first `old size` bytes at the new pointer are the bytes the old block
   * held, and every other byte is as before.
   */
  lemma ReallocCopies(s: State, k: nat, size: Size, os: bool)
    requires Inv(s) && k < |s.blocks| && s.blocks[k].size < size
    requires Issued(s, Payload(s.blocks[k])) && Realloc(s, Payload(s.blocks[k]), size, os).Ok?
    ensures var r := Realloc(s, Payload(s.blocks[k]), size, os);
      CopiedFrom(r.state.mem, s.mem, r.value, Payload(s.blocks[k]), s.blocks[k].size)
  {
    ReallocGrows(s, k, size, os);
  }

  // ------------------------------------------------------------------ calloc

  /**
   * calloc(nelem, elsize) asks malloc for (nelem * elsize) mod 2^64 bytes and
   * aborts exactly when that malloc does. A NULL result (a zero product)
   * leaves the heap untouched although memset runs; any other result has its
   * first `total` bytes set to zero and every other byte as before.
   */
  lemma CallocResult(s: State, nelem: Size, elsize: Size, os: bool)
    requires Inv(s)
    ensures var total := CallocSize(nelem, elsize);
      var r := Calloc(s, nelem, elsize, os);
      && (r.Aborted? <==> Malloc(s, total, os).Aborted?)
      && (r.Ok? ==>
            && Inv(r.state)
            && r.state.blocks == Malloc(s, total, os).state.blocks
            && r.value == Malloc(s, total, os).value
            && (r.value == NULL <==> total == 0)
            && (r.value == NULL ==> r.state == s)
            && (forall a :: r.value <= a < r.value + total ==> Load(r.state.mem, a) == Some(0))
            && (forall a :: !(r.value <= a < r.value + total) ==> Load(r.state.mem, a) == Load(s.mem, a)))
  {
    var total := CallocSize(nelem, elsize);
    var m := Malloc(s, total, os);
    if m.Ok? {
      MallocOk(s, total, os);
      var s1 := m.state;
      var p := m.value;
      if p != NULL {
        var j := IndexOf(s1.blocks, GetBlockPtr(p));
        BlockBounds(s1, j);
        MemWriteKeepsInv(s1, j, Fill(s1.mem, p, total, 0), p, total);
      }
    }
  }

  // ----------------------------------------------------- all operations

  /** The four public calls, with the pointer argument free and realloc are given. */
  datatype Call =
    | MallocCall(size: Size, os: bool)
    | FreeCall(ptr: int)
    | ReallocCall(ptr: int, size: Size, os: bool)
    | CallocCall(nelem: Size, elsize: Size, os: bool)

  /** `c` completes on `s` without aborting and leaves the heap `s2`. */
  ghost predicate Completes(s: State, c: Call, s2: State) {
    match c
    case MallocCall(size, os) => Malloc(s, size, os).Ok? && Malloc(s, size, os).state == s2
    case FreeCall(ptr) => Issued(s, ptr) && Free(s, ptr).Ok? && Free(s, ptr).state == s2
    case ReallocCall(ptr, size, os) =>
      Issued(s, ptr) && Realloc(s, ptr, size, os).Ok? && Realloc(s, ptr, size, os).state == s2
    case CallocCall(nelem, elsize, os) =>
      Calloc(s, nelem, elsize, os).Ok? && Calloc(s, nelem, elsize, os).state == s2
  }

  /**
   * The list invariant across one call from `s` to `s2`: the heap stays well
   * formed, blocks are only appended (at most one) and never unlinked, no
   * block's address or size changes, the break only grows, and
   * `global_base`, once set, stays.
   */
  ghost predicate ShapeStep(s: State, s2: State) {
    && Inv(s2) && s2.start == s.start && s.brk <= s2.brk
    && ShapeKept(s.blocks, s2.blocks) && |s2.blocks| <= |s.blocks| + 1
    && (GlobalBase(s) != NULL ==> GlobalBase(s2) == GlobalBase(s))
  }

  lemma MallocKeepsShape(s: State, size: Size, os: bool)
    requires Inv(s) && Malloc(s, size, os).Ok?
    ensures ShapeStep(s, Malloc(s, size, os).state)
  {
    MallocOk(s, size, os);
    MallocGrowth(s, size, os);
  }

  lemma FreeKeepsShape(s: State, ptr: int)
    requires Inv(s) && Issued(s, ptr) && Free(s, ptr).Ok?
    ensures ShapeStep(s, Free(s, ptr).state)
  {
    if ptr != NULL {
      var k := IndexOf(s.blocks, GetBlockPtr(ptr));
      HeaderOfPayload(s, k);
      FreeResult(s, k);
    }
  }

  lemma ReallocKeepsShape(s: State, ptr: int, size: Size, os: bool)
    requires Inv(s) && Issued(s, ptr) && Realloc(s, ptr, size, os).Ok?
    ensures ShapeStep(s, Realloc(s, ptr, size, os).state)
  {
    if ptr == NULL {
      ReallocNull(s, size, os);
      MallocKeepsShape(s, size, os);
    } else {
      var k := IndexOf(s.blocks, GetBlockPtr(ptr));
      assert ptr == Payload(s.blocks[k]);
      if s.blocks[k].size < size {
        ReallocMovesKeepsShape(s, k, size, os);
      } else {
        ReallocInPlace(s, k, size, os);
      }
    }
  }

  lemma ReallocMovesKeepsShape(s: State, k: nat, size: Size, os: bool)
    requires Inv(s) && k < |s.blocks| && s.blocks[k].size < size
    requires Issued(s, Payload(s.blocks[k])) && Realloc(s, Payload(s.blocks[k]), size, os).Ok?
    ensures ShapeStep(s, Realloc(s, Payload(s.blocks[k]), size, os).state)
  {
    ReallocMovesInv(s, k, size, os);
    ReallocMovesExtends(s, k, size, os);
  }

  lemma CallocKeepsShape(s: State, nelem: Size, elsize: Size, os: bool)
    requires Inv(s) && Calloc(s, nelem, elsize, os).Ok?
    ensures ShapeStep(s, Calloc(s, nelem, elsize, os).state)
  {
    CallocResult(s, nelem, elsize, os);
    MallocKeepsShape(s, CallocSize(nelem, elsize), os);
  }

  /** Every call that completes keeps the list invariant. */
  lemma CallKeepsShape(s: State, c: Call, s2: State)
    requires Inv(s) && Completes(s, c, s2)
    ensures ShapeStep(s, s2)
  {
    match c
    case MallocCall(size, os) => MallocKeepsShape(s, size, os);
    case FreeCall(ptr) => FreeKeepsShape(s, ptr);
    case ReallocCall(ptr, size, os) => ReallocKeepsShape(s, ptr, size, os);
    case CallocCall(nelem, elsize, os) => CallocKeepsShape(s, nelem, elsize, os);
  }
}
