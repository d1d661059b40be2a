/**
 * Value-level model of the first-fit free-list allocator of malloc.c.
 *
 * A State holds the initial program break (`start`), the list of block
 * headers in list order (which is creation order and address order), the
 * current break and the payload bytes that hold a value. Every public
 * operation is a function from a State to an Outcome: either the new State
 * with the value the C function returns, or `Aborted` when one of the
 * source's `assert`s fails and the process stops.
 */
module MallocSpec {

  datatype Option<T> = None | Some(value: T)

  /** sizeof(struct block_meta) on an LP64 target: size_t (8), pointer (8), int (4) and 4 bytes of padding. */
  const META_SIZE: nat := 24
  const NULL: int := 0
  /** What sbrk returns when the OS refuses to move the break: (void *) -1. */
  const SBRK_FAILED: int := -1
  /** size_t arithmetic is modulo 2^64. */
  const SIZE_MOD: nat := 0x1_0000_0000_0000_0000

  type Size = x: int | 0 <= x < SIZE_MOD
  type Byte = x: int | 0 <= x < 256

  /** One `struct block_meta`: its address, `size` and `free`; `next` is the following list element. */
  datatype Block = Block(addr: int, size: Size, free: bool)

  datatype State = State(start: int, blocks: seq<Block>, brk: int, mem: map<int, Byte>)

  datatype Outcome<T> = Ok(state: State, value: T) | Aborted

  /** `block + 1`: the address handed to the caller, just past the header; the payload then runs to the block's end. */
  function Payload(b: Block): (p: int)
    ensures b.addr < p && p + b.size == End(b)
  {
    b.addr + META_SIZE
  }

  /** First address past the block's payload. */
  function End(b: Block): int { b.addr + META_SIZE + b.size }

  /** `(struct block_meta *)ptr - 1`: the header of the block whose payload `ptr` is. */
  function GetBlockPtr(ptr: int): (h: int)
    ensures h < ptr && Payload(Block(h, 0, false)) == ptr
  {
    ptr - META_SIZE
  }

  /** The value of `global_base`: NULL until the first block exists, then the first block. */
  function GlobalBase(s: State): (g: int)
    ensures s.blocks != [] ==> g == s.blocks[0].addr
    ensures Inv(s) ==> (g == NULL <==> s.blocks == [])
  {
    if s.blocks == [] then NULL else s.blocks[0].addr
  }

  /** The state before the first call: no blocks, the break at its initial position. */
  function Init(start: int): (r: State)
    ensures GlobalBase(r) == NULL && r.brk == r.start == start
  {
    State(start, [], start, map[])
  }

  /**
   * Well-formedness of a heap: blocks tile [start, brk) without gaps in list
   * order, and every byte with a value lies inside the heap.
   */
  ghost predicate Inv(s: State) {
    && s.start > NULL
    && (s.blocks == [] ==> s.brk == s.start)
    && (s.blocks != [] ==> s.blocks[0].addr == s.start && End(s.blocks[|s.blocks| - 1]) == s.brk)
    && (forall i :: 0 <= i < |s.blocks| - 1 ==> s.blocks[i + 1].addr == End(s.blocks[i]))
    && (forall a :: a in s.mem ==> s.start <= a < s.brk)
  }

  /** The byte at address `a`, or None when it holds no determined value. */
  function Load(m: map<int, Byte>, a: int): Option<Byte> {
    if a in m then Some(m[a]) else None
  }

  /** The addresses lo, lo + 1, ..., lo + n - 1. */
  function Range(lo: int, n: nat): (r: set<int>)
    ensures forall a :: a in r <==> lo <= a < lo + n
  {
    if n == 0 then {} else Range(lo, n - 1) + {lo + n - 1}
  }

  /**
   * `m2` is `m` after copying the `n` bytes at `src` to `dst`: those bytes
   * hold what `src` held, and every other byte is as before.
   */
  ghost predicate CopiedFrom(m2: map<int, Byte>, m: map<int, Byte>, dst: int, src: int, n: nat) {
    && (forall a :: dst <= a < dst + n ==> Load(m2, a) == Load(m, a - dst + src))
    && (forall a :: !(dst <= a < dst + n) ==> Load(m2, a) == Load(m, a))
  }

  /**
   * Effect of `memcpy(dst, src, n)` on the modelled bytes. Every source byte
   * is read from `m`, the map before the copy.
   */
  function Copy(m: map<int, Byte>, dst: int, src: int, n: nat): (r: map<int, Byte>)
    ensures CopiedFrom(r, m, dst, src, n)
  {
    var target := Range(dst, n);
    var copied := set a | a in target && a - dst + src in m;
    map a | a in (m.Keys - target) + copied :: if dst <= a < dst + n then m[a - dst + src] else m[a]
  }

  /** Effect of `memset(dst, v, n)` on the modelled bytes. */
  function Fill(m: map<int, Byte>, dst: int, n: nat, v: Byte): (r: map<int, Byte>)
    ensures forall a :: dst <= a < dst + n ==> Load(r, a) == Some(v)
    ensures forall a :: !(dst <= a < dst + n) ==> Load(r, a) == Load(m, a)
    ensures n == 0 ==> r == m
  {
    var target := Range(dst, n);
    map a | a in m.Keys + target :: if dst <= a < dst + n then v else m[a]
  }

  /** The block at header address `a` exists. */
  ghost predicate HasBlockAt(bs: seq<Block>, a: int) {
    exists k :: 0 <= k < |bs| && bs[k].addr == a
  }

  /** The index of the (first) block whose header is at `a`: what dereferencing the header pointer reaches. */
  function IndexOf(bs: seq<Block>, a: int): (k: nat)
    requires HasBlockAt(bs, a)
    ensures k < |bs| && bs[k].addr == a
    ensures forall j :: 0 <= j < k ==> bs[j].addr != a
  {
    if bs[0].addr == a then 0
    else
      assert HasBlockAt(bs[1..], a) by {
        var k :| 0 <= k < |bs| && bs[k].addr == a;
        assert bs[1..][k - 1] == bs[k];
      }
      1 + IndexOf(bs[1..], a)
  }

  /** A pointer `free` and `realloc` may be given: NULL or the payload address of an existing block. */
  ghost predicate Issued(s: State, ptr: int) {
    ptr == NULL || HasBlockAt(s.blocks, GetBlockPtr(ptr))
  }

  /** The test of find_free_block's loop, negated: the block is free and its payload holds `size` bytes. */
  function Fits(b: Block, size: int): (r: bool)
    ensures r <==> b.free && Payload(b) + size <= End(b)
  {
    b.free && b.size >= size
  }

  /** The first-fit choice made by find_free_block: the first block in list order that fits. */
  function FirstFit(bs: seq<Block>, size: int): (r: Option<nat>)
    ensures r.Some? ==> r.value < |bs| && Fits(bs[r.value], size)
    ensures r.Some? ==> forall j :: 0 <= j < r.value ==> !Fits(bs[j], size)
    ensures r.None? ==> forall j :: 0 <= j < |bs| ==> !Fits(bs[j], size)
  {
    if bs == [] then None
    else if Fits(bs[0], size) then Some(0)
    else match FirstFit(bs[1..], size)
      case None => (assert forall j :: 1 <= j < |bs| ==> bs[j] == bs[1..][j - 1]; None)
      case Some(k) => (assert forall j :: 1 <= j < |bs| ==> bs[j] == bs[1..][j - 1]; Some(k + 1))
  }

  /** `bs2` is `bs` with at most one block appended and every old block untouched. */
  ghost predicate Extends(bs: seq<Block>, bs2: seq<Block>) {
    |bs| <= |bs2| <= |bs| + 1 && forall i :: 0 <= i < |bs| ==> bs2[i] == bs[i]
  }

  /**
   * request_space (malloc.c:41-65). `os` says whether the OS grants the
   * extension; `sbrk(0)` always succeeds. The assert comparing the old break
   * with sbrk's result runs before the -1 test, so a refusal aborts.
   */
  function RequestSpace(s: State, size: Size, os: bool): (r: Outcome<int>)
    ensures r.Ok? ==> r.state.start == s.start && r.state.mem == s.mem && Extends(s.blocks, r.state.blocks)
  {
    var block := s.brk;
    var request := if os then s.brk else SBRK_FAILED;
    if block != request then Aborted
    else if request == SBRK_FAILED then Ok(s, NULL)
    else Ok(Appended(s, size), block)
  }

  /**
   * The heap after request_space has formatted a used block of `size` bytes
   * at the old break and linked it after the tail: one block more, at the
   * end, and the break just past it.
   */
  function Appended(s: State, size: Size): (r: State)
    ensures r.start == s.start && r.mem == s.mem
    ensures |r.blocks| == |s.blocks| + 1 && Extends(s.blocks, r.blocks)
    ensures r.blocks[|s.blocks|] == Block(s.brk, size, false) && r.brk == End(r.blocks[|s.blocks|])
  {
    s.(blocks := s.blocks + [Block(s.brk, size, false)], brk := s.brk + META_SIZE + size)
  }

  /**
   * malloc (malloc.c:68-110). On a free-list hit the block is returned with
   * its `free` flag as it was: only a freshly created block has the flag
   * written (line 104), and RequestSpace already wrote it.
   */
  function Malloc(s: State, size: Size, os: bool): (r: Outcome<int>)
    ensures r.Ok? ==> r.state.start == s.start && r.state.mem == s.mem && Extends(s.blocks, r.state.blocks)
  {
    if size == 0 then Ok(s, NULL)
    else if s.blocks == [] then
      match RequestSpace(s, size, os)
      case Aborted => Aborted
      case Ok(s1, block) => if block == NULL then Ok(s1, NULL) else Ok(s1, block + META_SIZE)
    else
      match FirstFit(s.blocks, size)
      case Some(k) => Ok(s, Payload(s.blocks[k]))
      case None =>
        match RequestSpace(s, size, os)
        case Aborted => Aborted
        case Ok(s1, block) => if block == NULL then Ok(s1, NULL) else Ok(s1, block + META_SIZE)
  }

  /** free (malloc.c:120-133): abort when the header already says free, otherwise set the flag. */
  function Free(s: State, ptr: int): (r: Outcome<()>)
    requires Issued(s, ptr)
    ensures r.Ok? ==> r.state.start == s.start && r.state.mem == s.mem && r.state.brk == s.brk
    ensures r.Ok? ==> |r.state.blocks| == |s.blocks|
  {
    if ptr == NULL then Ok(s, ())
    else
      var k := IndexOf(s.blocks, GetBlockPtr(ptr));
      if s.blocks[k].free then Aborted
      else Ok(s.(blocks := s.blocks[k := s.blocks[k].(free := true)]), ())
  }

  /** realloc (malloc.c:136-163). */
  function Realloc(s: State, ptr: int, size: Size, os: bool): (r: Outcome<int>)
    requires Issued(s, ptr)
    ensures r.Ok? ==> r.state.start == s.start && |s.blocks| <= |r.state.blocks| <= |s.blocks| + 1
  {
    if ptr == NULL then Malloc(s, size, os)
    else
      var k := IndexOf(s.blocks, GetBlockPtr(ptr));
      var oldSize := s.blocks[k].size;
      if oldSize >= size then Ok(s, ptr)
      else
        match Malloc(s, size, os)
        case Aborted => Aborted
        case Ok(s1, newPtr) =>
          if newPtr == NULL then Ok(s1, NULL)
          else
            var s2 := s1.(mem := Copy(s1.mem, newPtr, ptr, oldSize));
            assert s2.blocks[k] == s.blocks[k];
            match Free(s2, ptr)
            case Aborted => Aborted
            case Ok(s3, _) => Ok(s3, newPtr)
  }

  /** The byte count calloc asks for: `nelem * elsize` in size_t arithmetic. */
  function CallocSize(nelem: Size, elsize: Size): (r: Size)
    ensures nelem * elsize < SIZE_MOD ==> r == nelem * elsize
    ensures (nelem * elsize - r) % SIZE_MOD == 0
  {
    (nelem * elsize) % SIZE_MOD
  }

  /** calloc (malloc.c:166-174): memset runs on malloc's result whatever it is. */
  function Calloc(s: State, nelem: Size, elsize: Size, os: bool): (r: Outcome<int>)
    ensures r.Ok? ==> r.state.start == s.start && Extends(s.blocks, r.state.blocks)
  {
    var size := CallocSize(nelem, elsize);
    match Malloc(s, size, os)
    case Aborted => Aborted
    case Ok(s1, ptr) => Ok(s1.(mem := Fill(s1.mem, ptr, size, 0)), ptr)
  }
}
