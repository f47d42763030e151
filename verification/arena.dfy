// compiler/src/arena.c: a region allocator over a linked list of blocks.
module Arenas {
  import opened Text
  import opened CheckedSize

  /** JZArenaBlock; the block header in front of the data takes BLOCK_HEADER bytes. */
  class ArenaBlock {
    var next: ArenaBlock?
    var used: Size
    const capacity: Size

    constructor (next: ArenaBlock?, capacity: Size)
      ensures this.next == next && this.capacity == capacity && used == 0
    {
      this.next, this.capacity, used := next, capacity, 0;
    }
  }

  const BLOCK_HEADER: Size := 24
  const DEFAULT_BLOCK_SIZE: Size := 4096

  /** A pointer handed out: a block, an offset into its data and the aligned size. */
  datatype Allocation = Allocation(block: ArenaBlock, offset: nat, size: nat)

  /** The allocation lies in a block of the arena, below what the block has used, at a multiple of the
      pointer size. */
  ghost predicate Placed(a: Allocation, blocks: seq<ArenaBlock>)
    reads blocks
  {
    && a.block in blocks
    && a.size > 0
    && a.offset % POINTER_SIZE == 0
    && a.offset + a.size <= a.block.used
  }

  predicate Disjoint(a: Allocation, b: Allocation) {
    a.block == b.block ==> a.offset + a.size <= b.offset || b.offset + b.size <= a.offset
  }

  /** The block at position i of a block list, or null past its end. */
  function BlockAt(blocks: seq<ArenaBlock>, i: nat): (r: ArenaBlock?) {
    if i < |blocks| then blocks[i] else null
  }

  /** The blocks form a null-terminated list without repetition. */
  ghost predicate Linked(blocks: seq<ArenaBlock>)
    reads blocks
  {
    && (forall i, j :: 0 <= i < j < |blocks| ==> blocks[i] != blocks[j])
    && forall i :: 0 <= i < |blocks| ==> blocks[i].next == BlockAt(blocks, i + 1)
  }

  /** Every block stays within its capacity and hands out whole pointers. */
  ghost predicate Filled(blocks: seq<ArenaBlock>)
    reads blocks
  {
    forall b <- blocks :: b.used <= b.capacity && b.used % POINTER_SIZE == 0
  }

  /** Live allocations lie in the used part of the blocks, pairwise disjoint. */
  ghost predicate Separate(live: seq<Allocation>, blocks: seq<ArenaBlock>)
    reads blocks
  {
    && (forall i :: 0 <= i < |live| ==> Placed(live[i], blocks))
    && (forall i, j :: 0 <= i < j < |live| ==> Disjoint(live[i], live[j]))
  }

  lemma Prepended(block: ArenaBlock, blocks: seq<ArenaBlock>)
    requires Linked(blocks) && block !in blocks && block.next == BlockAt(blocks, 0)
    ensures Linked([block] + blocks)
  {
    var all := [block] + blocks;
    assert forall i :: 0 < i < |all| ==> all[i] == blocks[i - 1];
    forall i | 0 <= i < |all| ensures all[i].next == BlockAt(all, i + 1) {
      if i > 0 {
        assert blocks[i - 1].next == BlockAt(blocks, i);
      }
    }
  }

  lemma NextInList(blocks: seq<ArenaBlock>, i: nat)
    requires Linked(blocks) && i < |blocks|
    ensures blocks[i].next == BlockAt(blocks, i + 1)
  {
  }

  lemma SliceGrows(blocks: seq<ArenaBlock>, k: nat, i: nat)
    requires k <= i < |blocks|
    ensures blocks[k..i + 1] == blocks[k..i] + [blocks[i]]
  {
  }

  /** The blocks given back to free(), in order. */
  class BlockLog {
    var freed: seq<ArenaBlock>

    constructor ()
      ensures freed == []
    {
      freed := [];
    }

    method Free(b: ArenaBlock)
      modifies this
      ensures freed == old(freed) + [b]
    {
      freed := freed + [b];
    }
  }

  class Arena {
    var head: ArenaBlock?
    var blockSize: Size
    /** The list from the head on, and the allocations since the last reset or free. */
    ghost var blocks: seq<ArenaBlock>
    ghost var live: seq<Allocation>

    ghost predicate Valid()
      reads this, blocks
    {
      && head == BlockAt(blocks, 0)
      && Linked(blocks)
      && blockSize > 0
      && Filled(blocks)
      && Separate(live, blocks)
    }

    /** The head block has room for size more bytes. */
    predicate HeadFits(size: nat)
      reads this, head
    {
      head != null && head.used + size <= head.capacity
    }

    /** jz_arena_init. */
    constructor (blockSize: Size)
      ensures Valid() && live == [] && blocks == []
      ensures this.blockSize == if blockSize == 0 then DEFAULT_BLOCK_SIZE else blockSize
    {
      head := null;
      this.blockSize := if blockSize != 0 then blockSize else DEFAULT_BLOCK_SIZE;
      blocks, live := [], [];
    }

    /** Put a block that holds at least size bytes in front of the list. */
    method AddBlock(size: Size) returns (added: bool)
      requires Valid()
      modifies this
      ensures Valid() && blockSize == old(blockSize) && live == old(live)
      ensures added <==> size + BLOCK_HEADER <= SIZE_MAX
      ensures !added ==> blocks == old(blocks) && head == old(head)
      ensures added ==> head != null && fresh(head) && blocks == [head] + old(blocks) && head.used == 0
      ensures added ==> head.capacity == (if blockSize > size + BLOCK_HEADER then blockSize - BLOCK_HEADER else size)
    {
      var minBytes := AddChecked(size, BLOCK_HEADER);
      if minBytes.None? {
        return false;
      }
      var req := if blockSize > minBytes.value then blockSize else minBytes.value;
      var block := new ArenaBlock(head, req - BLOCK_HEADER);
      Prepended(block, blocks);
      head, blocks := block, [block] + blocks;
      return true;
    }

    /** jz_arena_alloc: the head block is used whenever the aligned size fits its rest, else a new one; it
        fails exactly when the size is 0 or a sum it needs is no size_t. */
    method Alloc(size: Size) returns (r: Option<Allocation>)
      requires Valid()
      modifies this, head
      ensures Valid() && blockSize == old(blockSize)
      ensures r.None? <==>
                || size == 0
                || AlignUpChecked(size, POINTER_SIZE).None?
                || (var aligned := AlignUpChecked(size, POINTER_SIZE).value;
                    !old(HeadFits(aligned)) && aligned + BLOCK_HEADER > SIZE_MAX)
      ensures r.None? ==> live == old(live) && blocks == old(blocks)
      ensures r.Some? ==>
                && live == old(live) + [r.value]
                && AlignUpChecked(size, POINTER_SIZE) == Some(r.value.size)
                && r.value.block == head
                && head.used == r.value.offset + r.value.size
                && var taken := r.value.size;
                   if old(HeadFits(taken)) then blocks == old(blocks) && r.value.offset == old(head.used)
                   else fresh(head) && blocks == [head] + old(blocks) && r.value.offset == 0
    {
      if size == 0 {
        return None;
      }
      var aligned := AlignUpChecked(size, POINTER_SIZE);
      if aligned.None? {
        return None;
      }
      var fits := false;
      if head != null {
        var end := AddChecked(head.used, aligned.value);
        fits := end.Some? && end.value <= head.capacity;
      }
      if !fits {
        var added := AddBlock(aligned.value);
        if !added {
          return None;
        }
      }
      var taken := TakeFromHead(aligned.value);
      r := Some(taken);
    }

    /** Hand out the next bytes of the head block. */
    method TakeFromHead(size: Size) returns (a: Allocation)
      requires Valid() && HeadFits(size) && size > 0 && size % POINTER_SIZE == 0
      modifies this`live, head
      ensures Valid()
      ensures a == Allocation(head, old(head.used), size) && live == old(live) + [a]
      ensures head.used == old(head.used) + size
    {
      a := Allocation(head, head.used, size);
      head.used := head.used + size;
      live := live + [a];
    }

    /** Free the blocks of the list from position k on. */
    method FreeFrom(block: ArenaBlock?, log: BlockLog, ghost k: nat)
      requires Linked(blocks) && k <= |blocks| && block == BlockAt(blocks, k)
      modifies log
      ensures log.freed == old(log.freed) + blocks[k..]
    {
      hide Linked;
      var next := block;
      ghost var i := k;
      while next != null
        invariant k <= i <= |blocks| && next == BlockAt(blocks, i)
        invariant log.freed == old(log.freed) + blocks[k..i]
        decreases |blocks| - i
      {
        NextInList(blocks, i);
        SliceGrows(blocks, k, i);
        var tmp := next.next;
        log.Free(next);
        next := tmp;
        i := i + 1;
      }
      assert blocks[k..i] == blocks[k..];
    }

    /** jz_arena_reset: every block but the most recent is freed, once, and nothing is live. */
    method Reset(log: BlockLog)
      requires Valid()
      modifies this, head, log
      ensures Valid() && live == [] && head == old(head) && blockSize == old(blockSize)
      ensures blocks == old(if blocks == [] then [] else [blocks[0]])
      ensures blocks != [] ==> blocks[0].used == 0
      ensures log.freed == old(log.freed) + old(if blocks == [] then [] else blocks[1..])
    {
      if head == null {
        live := [];
        return;
      }
      assert head.next == BlockAt(blocks, 1);
      FreeFrom(head.next, log, 1);
      head.next := null;
      head.used := 0;
      blocks, live := [head], [];
    }

    /** jz_arena_free: every block is freed, once. */
    method Free(log: BlockLog)
      requires Valid()
      modifies this, log
      ensures Valid() && live == [] && blocks == [] && blockSize == old(blockSize)
      ensures log.freed == old(log.freed) + old(blocks)
    {
      FreeFrom(head, log, 0);
      head := null;
      blocks, live := [], [];
    }
  }
}
