/**
 * The allocator of malloc.c as an object: `global_base`, the headers the
 * list links through their `next` fields, the program break and the payload
 * bytes are fields that the operations update in place. Each operation is
 * proved to do what the matching function of MallocSpec says, so the
 * properties proved in MallocProps hold of it.
 */
module Malloc {
  import opened MallocSpec
  import opened MallocProps

  /** `struct block_meta` (malloc.c:9-14) as it sits at its address. */
  datatype Header = Header(size: Size, next: int, free: bool)

  /** What a call hands back to its caller, or `Abort` when an assert stopped the process. */
  datatype Reply = Returned(ptr: int) | Abort

  /**
   * The list `bs` is the one the headers `h` spell out: block j's header sits
   * at its address with its size and flag, and its `next` is block j + 1, or
   * NULL for the tail.
   */
  ghost predicate LinkedHeaders(h: map<int, Header>, bs: seq<Block>) {
    && (forall j :: 0 <= j < |bs| ==>
          bs[j].addr in h && h[bs[j].addr].size == bs[j].size && h[bs[j].addr].free == bs[j].free)
    && (forall j :: 0 <= j < |bs| - 1 ==> h[bs[j].addr].next == bs[j + 1].addr)
    && (bs != [] ==> h[bs[|bs| - 1].addr].next == NULL)
  }

  /** Header addresses increase along the list and lie strictly between NULL and the break. */
  lemma Increasing(s: State)
    requires Inv(s)
    ensures forall i, j :: 0 <= i < j < |s.blocks| ==> s.blocks[i].addr < s.blocks[j].addr
    ensures forall j :: 0 <= j < |s.blocks| ==> NULL < s.blocks[j].addr < s.brk
  {
    forall i, j | 0 <= i < j < |s.blocks| ensures s.blocks[i].addr < s.blocks[j].addr {
      Ordered(s, i, j);
    }
    forall j | 0 <= j < |s.blocks| ensures NULL < s.blocks[j].addr < s.brk {
      BlockBounds(s, j);
    }
  }

  /**
   * Linking a new header at `a`, above every existing one, after the tail and
   * formatting it as a used tail spells out the list with the block appended.
   */
  lemma LinkedAppend(h: map<int, Header>, bs: seq<Block>, a: int, size: Size)
    requires LinkedHeaders(h, bs)
    requires forall i, j :: 0 <= i < j < |bs| ==> bs[i].addr < bs[j].addr
    requires forall j :: 0 <= j < |bs| ==> bs[j].addr < a
    ensures var h1 := if bs == [] then h else h[bs[|bs| - 1].addr := h[bs[|bs| - 1].addr].(next := a)];
      LinkedHeaders(h1[a := Header(size, NULL, false)], bs + [Block(a, size, false)])
  {
    var h1 := if bs == [] then h else h[bs[|bs| - 1].addr := h[bs[|bs| - 1].addr].(next := a)];
    var h2 := h1[a := Header(size, NULL, false)];
    var bs2 := bs + [Block(a, size, false)];
    forall j | 0 <= j < |bs2| - 1 ensures h2[bs2[j].addr].next == bs2[j + 1].addr {
      if j + 1 < |bs| {
        assert bs2[j] == bs[j] && bs2[j + 1] == bs[j + 1];
      }
    }
  }

  /** Setting the flag in block k's header spells out the list with block k marked free. */
  lemma LinkedSetFree(h: map<int, Header>, bs: seq<Block>, k: nat)
    requires LinkedHeaders(h, bs) && k < |bs|
    requires forall i, j :: 0 <= i < j < |bs| ==> bs[i].addr < bs[j].addr
    ensures LinkedHeaders(h[bs[k].addr := h[bs[k].addr].(free := true)], bs[k := bs[k].(free := true)])
  {
  }

  class Heap {
    /** The break when the process started. */
    const start: int
    /** `global_base` (malloc.c:20): NULL, or the address of the first header. */
    var globalBase: int
    /** The header stored at each block address. */
    var headers: map<int, Header>
    /** The program break, moved only by Sbrk. */
    var brk: int
    /** Payload bytes that hold a value. */
    var mem: map<int, Byte>
    /** The list as the model sees it: the blocks met following `next` from `global_base`. */
    ghost var blocks: seq<Block>

    /** The list is well linked through the headers and the blocks tile the heap. */
    ghost predicate Linked()
      reads this
    {
      LinkedHeaders(headers, blocks) && Inv(State(start, blocks, brk, mem))
    }

    /** The heap as a value of the model. */
    ghost function Abstract(): State
      reads this
    {
      State(start, blocks, brk, mem)
    }

    /** The object invariant: a linked, tiled heap whose list starts at `global_base`. */
    ghost predicate Valid()
      reads this
    {
      Linked() && globalBase == GlobalBase(Abstract())
    }

    /** The result of a call is the one the model's outcome `o` names, and so is the new heap. */
    ghost predicate Replies(o: Outcome<int>, r: Reply)
      reads this
    {
      match o
      case Aborted => r.Abort?
      case Ok(s, v) => r == Returned(v) && Abstract() == s
    }

    /** A process whose break starts at `start` and that has not allocated yet. */
    constructor (start: int)
      requires start > NULL
      ensures Valid() && Abstract() == Init(start)
    {
      this.start := start;
      globalBase := NULL;
      headers := map[];
      brk := start;
      mem := map[];
      blocks := [];
    }

    /** The address of the tail header, or NULL for an empty list. */
    ghost function Tail(): int
      reads this
    {
      if blocks == [] then NULL else blocks[|blocks| - 1].addr
    }

    /**
     * sbrk: with `os` the OS grants the request and the old break is
     * returned; otherwise it returns (void *) -1 and the break stays.
     */
    method Sbrk(increment: int, os: bool) returns (prev: int)
      modifies this`brk
      ensures os ==> prev == old(brk) && brk == old(brk) + increment
      ensures !os ==> prev == SBRK_FAILED && brk == old(brk)
    {
      if os {
        prev := brk;
        brk := brk + increment;
      } else {
        prev := SBRK_FAILED;
      }
    }

    /**
     * find_free_block (malloc.c:26-37): walk the list from `global_base`;
     * `last` starts as the caller's `*last` and is overwritten with every
     * header passed over. Returns the first-fit header, or NULL with `last`
     * at the tail.
     */
    method FindFreeBlock(lastIn: int, size: Size) returns (current: int, last: int)
      requires Valid()
      ensures FirstFit(blocks, size).None? ==>
        current == NULL && last == if blocks == [] then lastIn else Tail()
      ensures FirstFit(blocks, size).Some? ==>
        var k := FirstFit(blocks, size).value;
        current == blocks[k].addr && current != NULL && last == if k == 0 then lastIn else blocks[k - 1].addr
    {
      forall j | 0 <= j < |blocks| ensures blocks[j].addr != NULL {
        BlockBounds(Abstract(), j);
      }
      current := globalBase;
      last := lastIn;
      ghost var i := 0;
      while current != NULL && !(headers[current].free && headers[current].size >= size)
        invariant 0 <= i <= |blocks|
        invariant current == if i < |blocks| then blocks[i].addr else NULL
        invariant last == if i == 0 then lastIn else blocks[i - 1].addr
        invariant forall j :: 0 <= j < i ==> !Fits(blocks[j], size)
        decreases |blocks| - i
      {
        last := current;
        current := headers[current].next;
        i := i + 1;
      }
      assert i < |blocks| ==> Fits(blocks[i], size);
    }

    /**
     * request_space (malloc.c:41-65): query the break, extend it by the
     * header and `size` bytes, check that the extension began at the old
     * break (the assert of line 48, which a refusal fails), link the new
     * header after `last` and format it.
     */
    method RequestSpace(last: int, size: Size, os: bool) returns (r: Reply)
      requires Valid() && last == Tail()
      modifies this
      ensures Linked() && globalBase == old(globalBase)
      ensures Replies(MallocSpec.RequestSpace(old(Abstract()), size, os), r)
      ensures r.Abort? ==> unchanged(this)
      ensures r.Returned? ==>
        && r.ptr == old(brk) && headers[r.ptr] == Header(size, NULL, false)
        && (last != NULL ==> headers[last].next == r.ptr)
    {
      ghost var s := Abstract();
      RequestSpaceResult(s, size, os);
      Increasing(s);
      var block := Sbrk(0, true);
      var request := Sbrk(META_SIZE + size, os);
      if block != request {
        return Abort;
      }
      if request == SBRK_FAILED {
        return Returned(NULL);
      }
      LinkedAppend(headers, blocks, block, size);
      if last != NULL {
        headers := headers[last := headers[last].(next := block)];
      }
      headers := headers[block := Header(size, NULL, false)];
      blocks := blocks + [Block(block, size, false)];
      r := Returned(block);
    }

    /**
     * malloc (malloc.c:68-110). A free-list hit is returned as found: the
     * `free = 0` of line 104 runs only on a block request_space created.
     */
    method Malloc(size: Size, os: bool) returns (r: Reply)
      requires Valid()
      modifies this
      ensures Valid()
      ensures Replies(MallocSpec.Malloc(old(Abstract()), size, os), r)
    {
      ghost var s := Abstract();
      if size == 0 {
        return Returned(NULL);
      }
      MallocResult(s, size, os);
      AppendedInv(s, size);
      var block: int;
      if globalBase == NULL {
        var got := RequestSpace(NULL, size, os);
        if got.Abort? {
          return Abort;
        }
        block := got.ptr;
        if block == NULL {
          return Returned(NULL);
        }
        globalBase := block;
      } else {
        var last := globalBase;
        block, last := FindFreeBlock(last, size);
        if block == NULL {
          var got := RequestSpace(last, size, os);
          if got.Abort? {
            return Abort;
          }
          block := got.ptr;
          if block == NULL {
            return Returned(NULL);
          } else {
            ghost var h := headers;
            assert block in h && !h[block].free;
            headers := headers[block := headers[block].(free := false)];
            assert headers == h;
          }
        }
      }
      r := Returned(block + META_SIZE);
    }

    /** The header get_block_ptr finds for an issued pointer is its block's header, in the map. */
    lemma HeaderOf(ptr: int)
      requires Linked() && ptr != NULL && Issued(Abstract(), ptr)
      ensures var k := IndexOf(blocks, GetBlockPtr(ptr));
        && GetBlockPtr(ptr) in headers && blocks[k].addr == GetBlockPtr(ptr)
        && headers[GetBlockPtr(ptr)].size == blocks[k].size
        && headers[GetBlockPtr(ptr)].free == blocks[k].free
        && Payload(blocks[k]) == ptr
    {
    }

    /** free (malloc.c:120-133): NULL is ignored; a header already marked free stops the process at line 130. */
    method Free(ptr: int) returns (aborted: bool)
      requires Valid() && Issued(Abstract(), ptr)
      modifies this
      ensures Valid()
      ensures aborted <==> MallocSpec.Free(old(Abstract()), ptr).Aborted?
      ensures !aborted ==> Abstract() == MallocSpec.Free(old(Abstract()), ptr).state
      ensures aborted ==> unchanged(this)
    {
      if ptr == NULL {
        return false;
      }
      ghost var s := Abstract();
      var blockPtr := GetBlockPtr(ptr);
      HeaderOf(ptr);
      ghost var k := IndexOf(blocks, blockPtr);
      HeaderOfPayload(s, k);
      if headers[blockPtr].free {
        return true;
      }
      FreeResult(s, k);
      Increasing(s);
      LinkedSetFree(headers, blocks, k);
      headers := headers[blockPtr := headers[blockPtr].(free := true)];
      blocks := blocks[k := blocks[k].(free := true)];
      aborted := false;
    }

    /** realloc (malloc.c:136-163). */
    method Realloc(ptr: int, size: Size, os: bool) returns (r: Reply)
      requires Valid() && Issued(Abstract(), ptr)
      modifies this
      ensures Valid()
      ensures Replies(MallocSpec.Realloc(old(Abstract()), ptr, size, os), r)
    {
      if ptr == NULL {
        r := Malloc(size, os);
        return;
      }
      ghost var s := Abstract();
      var blockPtr := GetBlockPtr(ptr);
      HeaderOf(ptr);
      ghost var k := IndexOf(blocks, blockPtr);
      HeaderOfPayload(s, k);
      if headers[blockPtr].size >= size {
        return Returned(ptr);
      }
      var newPtr := Malloc(size, os);
      if newPtr.Abort? {
        ReallocGrows(s, k, size, os);
        return Abort;
      }
      ReallocAfterCopy(s, k, size, os);
      if newPtr.ptr == NULL {
        return Returned(NULL);
      }
      ghost var s1 := Abstract();
      assert blocks[k] == s.blocks[k];
      mem := Copy(mem, newPtr.ptr, ptr, headers[blockPtr].size);
      assert Abstract() == s1.(mem := Copy(s1.mem, newPtr.ptr, Payload(s.blocks[k]), s.blocks[k].size));
      assert Linked();
      var aborted := Free(ptr);
      if aborted {
        return Abort;
      }
      r := Returned(newPtr.ptr);
    }

    /** calloc (malloc.c:166-174): the size_t product, malloc, then memset with no NULL test. */
    method Calloc(nelem: Size, elsize: Size, os: bool) returns (r: Reply)
      requires Valid()
      modifies this
      ensures Valid()
      ensures Replies(MallocSpec.Calloc(old(Abstract()), nelem, elsize, os), r)
    {
      ghost var s := Abstract();
      CallocResult(s, nelem, elsize, os);
      var size := CallocSize(nelem, elsize);
      r := Malloc(size, os);
      if r.Abort? {
        return;
      }
      mem := Fill(mem, r.ptr, size, 0);
    }
  }
}
