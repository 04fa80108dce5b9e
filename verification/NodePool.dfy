/**
 * The block allocator behind all tree nodes. Entries are addresses; blocks hold 1024 of them and
 * keep the unused ones in an intrusive list threaded through the entries themselves.
 */
module NodePool {

  const ENTRIES_PER_BLOCK := 1024
  const HEADER_SIZE := 24
  const ENTRY_SIZE := 32
  const BLOCK_SIZE := HEADER_SIZE + ENTRY_SIZE * ENTRIES_PER_BLOCK

  /** Pointers to entries; 0 is NULL. */
  type Addr = nat

  const NULL: Addr := 0

  /** Entries are 32 bytes, the larger of the two node structures. */
  function EntryAddr(base: Addr, k: nat): Addr {
    base + HEADER_SIZE + ENTRY_SIZE * k
  }

  /** The first `n` entry addresses of a block. */
  function EntryAddrs(base: Addr, n: nat): (r: seq<Addr>)
    ensures |r| == n
    ensures forall k | 0 <= k < n :: r[k] == EntryAddr(base, k)
  {
    seq(n, k requires 0 <= k < n => EntryAddr(base, k))
  }

  ghost function FirstEntries(base: Addr, n: nat): set<Addr> {
    set k | 0 <= k < n :: EntryAddr(base, k)
  }

  ghost function BlockEntries(base: Addr): set<Addr> {
    FirstEntries(base, ENTRIES_PER_BLOCK)
  }

  ghost function Elems(s: seq<Addr>): set<Addr> {
    set a | a in s
  }

  /** The list element at `i`, or the NULL that ends the list. */
  function ListAt(s: seq<Addr>, i: nat): Addr {
    if i < |s| then s[i] else NULL
  }

  /** Entry `i` of the list is linked to the following one. */
  ghost predicate LinkedAt(next: map<Addr, Addr>, free: seq<Addr>, i: nat)
    requires i < |free|
  {
    free[i] in next && next[free[i]] == ListAt(free, i + 1)
  }

  /** `free` lists distinct entries, each linked to the following one. */
  ghost predicate FreeList(next: map<Addr, Addr>, free: seq<Addr>) {
    && (forall i | 0 <= i < |free| :: LinkedAt(next, free, i))
    && (forall i, j | 0 <= i < j < |free| :: free[i] != free[j])
  }

  lemma {:induction false} FreeListPop(next: map<Addr, Addr>, free: seq<Addr>)
    requires FreeList(next, free) && free != []
    ensures FreeList(next, free[1..]) && free[0] in next && next[free[0]] == ListAt(free[1..], 0)
    ensures Elems(free) == Elems(free[1..]) + {free[0]} && free[0] !in free[1..]
  {
    var rest := free[1..];
    assert LinkedAt(next, free, 0);
    forall i | 0 <= i < |rest| ensures LinkedAt(next, rest, i) {
      assert LinkedAt(next, free, i + 1);
    }
    assert free == [free[0]] + rest;
  }

  lemma {:induction false} FreeListPush(next: map<Addr, Addr>, free: seq<Addr>, e: Addr)
    requires FreeList(next, free) && e !in free
    ensures FreeList(next[e := ListAt(free, 0)], [e] + free)
    ensures Elems([e] + free) == Elems(free) + {e}
  {
    var next', free' := next[e := ListAt(free, 0)], [e] + free;
    forall i | 0 <= i < |free'| ensures LinkedAt(next', free', i) {
      if i > 0 {
        assert LinkedAt(next, free, i - 1);
      }
    }
  }

  class Block {
    const base: Addr
    var nextBlock: Block?
    var firstFree: Addr
    var allocCnt: int
    /** The `next` word of every entry. */
    var next: map<Addr, Addr>

    /** The unused entries in list order, and the entries in use. */
    ghost var free: seq<Addr>
    ghost var live: set<Addr>

    ghost predicate Valid()
      reads `firstFree, `allocCnt, `next, `free, `live
    {
      && base > 0
      && next.Keys == BlockEntries(base)
      && firstFree == ListAt(free, 0)
      && FreeList(next, free)
      && |free| == ENTRIES_PER_BLOCK - allocCnt && allocCnt >= 0
      && live == next.Keys - Elems(free)
    }

    /** Whether the address lies in the entry area. */
    predicate Contains(a: Addr) {
      base + HEADER_SIZE <= a < base + BLOCK_SIZE
    }

    constructor (base: Addr)
      requires base > 0
      ensures this.base == base && Valid() && nextBlock == null
      ensures free == EntryAddrs(base, ENTRIES_PER_BLOCK) && allocCnt == 0 && live == {}
    {
      this.base := base;
      var first, links := ThreadEntries(base);
      EntriesSize(base, ENTRIES_PER_BLOCK);
      firstFree, next := first, links;
      nextBlock := null;
      allocCnt := 0;
      free := EntryAddrs(base, ENTRIES_PER_BLOCK);
      live := {};
    }

    /** Links all entries of a new block into one list, in address order. */
    static method ThreadEntries(base: Addr) returns (first: Addr, next: map<Addr, Addr>)
      requires base > 0
      ensures first == EntryAddr(base, 0)
      ensures next.Keys == BlockEntries(base)
      ensures FreeList(next, EntryAddrs(base, ENTRIES_PER_BLOCK))
    {
      first := EntryAddr(base, 0);
      next := map[];
      var k := 1;
      while k < ENTRIES_PER_BLOCK
        invariant 1 <= k <= ENTRIES_PER_BLOCK
        invariant next.Keys == FirstEntries(base, k - 1)
        invariant forall j: nat | j < k - 1 :: next[EntryAddr(base, j)] == EntryAddr(base, j + 1)
      {
        next := next[EntryAddr(base, k - 1) := EntryAddr(base, k)];
        k := k + 1;
      }
      next := next[EntryAddr(base, k - 1) := NULL];
      ghost var free := EntryAddrs(base, ENTRIES_PER_BLOCK);
      forall i | 0 <= i < |free| ensures LinkedAt(next, free, i) {
        assert free[i] == EntryAddr(base, i);
      }
    }

    /** Takes the first unused entry. */
    method Alloc() returns (entry: Addr)
      requires Valid() && free != []
      modifies `firstFree, `allocCnt, `free, `live
      ensures Valid()
      ensures entry == old(free[0]) && free == old(free[1..])
      ensures entry in live && live == old(live) + {entry} && allocCnt > 0
      ensures entry !in old(live)
    {
      FreeListPop(next, free);
      entry := firstFree;
      firstFree := next[entry];
      allocCnt := allocCnt + 1;
      free := free[1..];
      live := live + {entry};
    }

    lemma {:induction false} FreeIff()
      requires Valid()
      ensures firstFree == NULL <==> free == []
    {
      if free != [] {
        assert LinkedAt(next, free, 0);
      }
    }

    /** Puts a live entry in front of the unused ones. */
    method Free(entry: Addr)
      requires Valid() && entry in live
      modifies `firstFree, `allocCnt, `next, `free, `live
      ensures Valid()
      ensures free == [entry] + old(free)
      ensures live == old(live) - {entry} && next.Keys == old(next.Keys)
    {
      LiveSize();
      assert live != {};
      FreeListPush(next, free, entry);
      next := next[entry := firstFree];
      firstFree := entry;
      allocCnt := allocCnt - 1;
      free := [entry] + free;
      live := live - {entry};
    }

    /** `alloc_entry_cnt` counts the live entries. */
    lemma {:induction false} LiveSize()
      requires Valid()
      ensures |live| == allocCnt
    {
      DistinctSize(free);
      EntriesSize(base, ENTRIES_PER_BLOCK);
      forall a | a in free ensures a in next {
        var i :| 0 <= i < |free| && free[i] == a;
        assert LinkedAt(next, free, i);
      }
      assert Elems(free) + live == next.Keys;
    }
  }

  lemma {:induction false} EntriesSize(base: Addr, n: nat)
    ensures |FirstEntries(base, n)| == n
  {
    if n > 0 {
      EntriesSize(base, n - 1);
      assert FirstEntries(base, n) == FirstEntries(base, n - 1) + {EntryAddr(base, n - 1)};
    }
  }

  lemma {:induction false} DistinctSize(s: seq<Addr>)
    requires forall i, j | 0 <= i < j < |s| :: s[i] != s[j]
    ensures |Elems(s)| == |s|
  {
    if s != [] {
      var s', x := s[..|s| - 1], s[|s| - 1];
      DistinctSize(s');
      assert Elems(s) == Elems(s') + {x};
      assert x !in Elems(s');
    }
  }

  /** `malloc` never hands out overlapping memory. */
  ghost predicate Apart(b: Block, c: Block) {
    b.base + BLOCK_SIZE <= c.base || c.base + BLOCK_SIZE <= b.base
  }

  /** `home` lists the live entries of all blocks. */
  ghost predicate Homed(bs: set<Block>, home: map<Addr, Block>)
    reads bs`live
  {
    && (forall a | a in home :: home[a] in bs && a in home[a].live)
    && (forall b, a | b in bs && a in b.live :: a in home)
  }

  /** Release is delayed, but at most one block is kept without live entries. */
  ghost predicate AtMostOneUnused(bs: set<Block>)
    reads bs`allocCnt
  {
    forall b, c | b in bs && c in bs && b.allocCnt == 0 && c.allocCnt == 0 :: b == c
  }

  /** Every block is sound, blocks do not overlap, and their live entries are known. */
  ghost predicate Sound(bs: set<Block>, home: map<Addr, Block>)
    reads bs`firstFree, bs`allocCnt, bs`next, bs`free, bs`live
  {
    && (forall b | b in bs :: b.Valid())
    && (forall b, c | b in bs && c in bs && b != c :: Apart(b, c))
    && Homed(bs, home)
  }

  /** A new block may join when all others are full. */
  lemma {:induction false} AddUnused(bs: set<Block>, home: map<Addr, Block>, block: Block)
    requires Sound(bs, home) && block.Valid() && block.live == {}
    requires forall b | b in bs :: b.allocCnt != 0 && Apart(b, block)
    ensures Sound(bs + {block}, home) && AtMostOneUnused(bs + {block})
  {
    hide Block.Valid;
  }

  /** The first unused entry of a block is no live entry of any block. */
  lemma {:induction false} UnusedEntry(bs: set<Block>, home: map<Addr, Block>, block: Block)
    requires Sound(bs, home) && block in bs && block.free != []
    ensures block.free[0] !in home && block.free[0] != NULL
  {
    assert LinkedAt(block.next, block.free, 0);
    forall a | a in home ensures a != block.free[0] {
      assert home[a] != block ==> Apart(home[a], block);
    }
  }

  /** The 32 bytes of an entry lie inside the memory of its block, behind the header. */
  lemma {:induction false} EntryInside(block: Block, a: Addr)
    requires block.Valid() && a in block.next
    ensures block.base + HEADER_SIZE <= a && a + ENTRY_SIZE <= block.base + BLOCK_SIZE
  {
  }

  /** No two live entries of the pool share a byte. */
  ghost predicate NoOverlap(live: set<Addr>) {
    forall a, c | a in live && c in live && a != c :: a + ENTRY_SIZE <= c || c + ENTRY_SIZE <= a
  }

  lemma {:induction false} LiveApart(bs: set<Block>, home: map<Addr, Block>)
    requires Sound(bs, home)
    ensures NoOverlap(home.Keys)
  {
    forall a, c | a in home && c in home && a != c ensures a + ENTRY_SIZE <= c || c + ENTRY_SIZE <= a {
      EntryInside(home[a], a);
      EntryInside(home[c], c);
      assert home[a] != home[c] ==> Apart(home[a], home[c]);
    }
  }

  lemma {:induction false} OthersUnused(bs: set<Block>, block: Block)
    requires AtMostOneUnused(bs)
    ensures AtMostOneUnused(bs - {block})
  {
  }

  lemma {:induction false} OneMoreUsed(bs: set<Block>, block: Block)
    requires AtMostOneUnused(bs - {block}) && block.allocCnt != 0
    ensures AtMostOneUnused(bs)
  {
  }

  /** A live entry is live in the block that contains it. */
  lemma {:induction false} LiveIn(bs: set<Block>, home: map<Addr, Block>, block: Block, node: Addr)
    requires Sound(bs, home) && block in bs && block.Contains(node) && node in home
    ensures home[node] == block && node in block.live
    ensures forall b | b in bs && b != block :: node !in b.live
  {
    assert home[node].Contains(node);
    assert home[node] != block ==> Apart(home[node], block);
    forall b | b in bs && b != block ensures node !in b.live {
      assert Apart(b, block);
    }
  }

  /** Dropping a block without live entries leaves the others sound. */
  lemma {:induction false} Dropped(bs: set<Block>, home: map<Addr, Block>, block: Block)
    requires Sound(bs, home) && block in bs && block.allocCnt == 0
    ensures Sound(bs - {block}, home)
  {
    block.LiveSize();
    hide Block.Valid;
  }

  /** `struct ufdt_node_pool_block_header **`: the pool's own link, a block's link, or NULL. */
  datatype BlockSlot = PoolHead | NextOf(block: Block) | NullSlot

  class Pool {
    var firstBlock: Block?
    var lastBlockPtr: BlockSlot

    /** The blocks in list order. */
    ghost var blocks: seq<Block>
    ghost var members: set<Block>
    /** The block of every live entry. */
    ghost var home: map<Addr, Block>

    /** The list of blocks is linked, ends in NULL, and `lastBlockPtr` is the slot holding that NULL. */
    ghost predicate Linked()
      reads `blocks, `firstBlock, `lastBlockPtr, blocks`nextBlock
    {
      && firstBlock == BlockAt(0)
      && (forall i {:trigger blocks[i].nextBlock} | 0 <= i < |blocks| :: blocks[i].nextBlock == BlockAt(i + 1))
      && lastBlockPtr == SlotOf(|blocks|)
    }

    ghost function BlockAt(i: nat): Block?
      reads `blocks
    {
      if i < |blocks| then blocks[i] else null
    }

    /** The slot that points at block `i`. */
    ghost function SlotOf(i: nat): BlockSlot
      requires i <= |blocks|
      reads `blocks
    {
      if i == 0 then PoolHead else NextOf(blocks[i - 1])
    }

    ghost predicate Distinct()
      reads `blocks
    {
      forall i, j | 0 <= i < j < |blocks| :: blocks[i] != blocks[j]
    }

    /** Blocks with unused entries come before full ones. */
    ghost predicate Ordered()
      reads `blocks, blocks`free
    {
      forall i, j | 0 <= i < j < |blocks| :: blocks[i].free == [] ==> blocks[j].free == []
    }

    /** The same for all blocks but the first. */
    ghost predicate TailOrdered()
      requires blocks != []
      reads `blocks, blocks[1..]`free
    {
      forall i, j | 0 <= i < j < |blocks[1..]| :: blocks[1..][i].free == [] ==> blocks[1..][j].free == []
    }

    lemma {:induction false} TailOf()
      requires Ordered() && Distinct() && blocks != []
      ensures TailOrdered() && blocks[0] !in blocks[1..]
    {
    }

    lemma {:induction false} FromTail()
      requires blocks != [] && TailOrdered()
      requires blocks[0].free != [] || |blocks| == 1
      ensures Ordered()
    {
      var rest := blocks[1..];
      forall i, j | 0 <= i < j < |blocks| ensures blocks[i].free == [] ==> blocks[j].free == [] {
        if i > 0 {
          assert rest[i - 1] == blocks[i] && rest[j - 1] == blocks[j];
        }
      }
    }

    ghost predicate Valid()
      reads this, blocks, members
    {
      && Linked() && Distinct() && Ordered()
      && (forall b | b in blocks :: b in members)
      && (forall b | b in members :: b in blocks)
      && Sound(members, home) && AtMostOneUnused(members)
    }

    ghost function Live(): set<Addr>
      reads `home
    {
      home.Keys
    }

    constructor ()
      ensures Valid() && blocks == [] && Live() == {}
    {
      firstBlock := null;
      lastBlockPtr := PoolHead;
      blocks, members := [], {};
      home := map[];
    }

    /** What a slot of the block list points at. */
    function Deref(slot: BlockSlot): Block?
      requires !slot.NullSlot?
      reads this, if slot.NextOf? then {slot.block} else {}
    {
      match slot
      case PoolHead => firstBlock
      case NextOf(block) => block.nextBlock
    }

    method Store(slot: BlockSlot, block: Block?)
      requires !slot.NullSlot?
      modifies `firstBlock, (if slot.NextOf? then {slot.block} else {})`nextBlock
      ensures Deref(slot) == block
      ensures slot.NextOf? ==> firstBlock == old(firstBlock)
    {
      match slot
      case PoolHead => firstBlock := block;
      case NextOf(b) => b.nextBlock := block;
    }

    method Prepend(block: Block)
      requires Linked() && block !in blocks
      modifies `firstBlock, `lastBlockPtr, `blocks, block`nextBlock
      ensures Linked() && blocks == [block] + old(blocks)
    {
      var origin := firstBlock;
      block.nextBlock := origin;
      firstBlock := block;
      if origin == null {
        lastBlockPtr := NextOf(block);
      }
      blocks := [block] + blocks;
      assert forall i | 0 < i < |blocks| :: blocks[i] == old(blocks)[i - 1];
    }

    method Append(block: Block)
      requires Linked() && block !in blocks
      requires Distinct()
      modifies `firstBlock, `lastBlockPtr, `blocks, block`nextBlock, blocks`nextBlock
      ensures Linked() && blocks == old(blocks) + [block]
    {
      block.nextBlock := null;
      Store(lastBlockPtr, block);
      lastBlockPtr := NextOf(block);
      blocks := blocks + [block];
    }

    /** Unlinks the block that `slot` points at. */
    method Remove(slot: BlockSlot, ghost i: nat)
      requires Linked() && Distinct() && i < |blocks| && slot == SlotOf(i)
      modifies `firstBlock, `lastBlockPtr, `blocks, blocks`nextBlock
      ensures Linked() && blocks == old(blocks[..i] + blocks[i + 1..])
    {
      assert blocks[i].nextBlock == BlockAt(i + 1);
      var block := Deref(slot);
      var next := block.nextBlock;
      SkipTo(slot, next, i);
      if next == null {
        lastBlockPtr := slot;
      }
      block.nextBlock := null;
      Unlinked(i);
      blocks := blocks[..i] + blocks[i + 1..];
    }

    /** Makes the slot before block `i` point behind it. */
    method SkipTo(slot: BlockSlot, next: Block?, ghost i: nat)
      requires Linked() && Distinct() && i < |blocks| && slot == SlotOf(i) && next == BlockAt(i + 1)
      modifies `firstBlock, blocks`nextBlock
      ensures firstBlock == if i == 0 then next else BlockAt(0)
      ensures forall k {:trigger blocks[k].nextBlock} | 0 <= k < |blocks| ::
                blocks[k].nextBlock == if k + 1 == i then next else BlockAt(k + 1)
    {
      Store(slot, next);
    }

    /** The links that skip block `i` form the list without it. */
    lemma {:induction false} Unlinked(i: nat)
      requires Distinct() && i < |blocks|
      requires forall k {:trigger blocks[k].nextBlock} | 0 <= k < |blocks| && k != i ::
                 blocks[k].nextBlock == if k + 1 == i then BlockAt(i + 1) else BlockAt(k + 1)
      requires firstBlock == if i == 0 then BlockAt(1) else BlockAt(0)
      ensures var rest := blocks[..i] + blocks[i + 1..];
              && firstBlock == (if rest == [] then null else rest[0])
              && forall k {:trigger rest[k].nextBlock} | 0 <= k < |rest| ::
                   rest[k].nextBlock == if k + 1 < |rest| then rest[k + 1] else null
    {
      var rest := blocks[..i] + blocks[i + 1..];
      forall k | 0 <= k < |rest| ensures rest[k].nextBlock == if k + 1 < |rest| then rest[k + 1] else null {
        assert rest[k] == if k < i then blocks[k] else blocks[k + 1];
      }
    }

    /** An address range that overlaps no block. */
    method Malloc() returns (base: Addr)
      requires Valid()
      ensures base > 0
      ensures forall b | b in blocks :: b.base + BLOCK_SIZE <= base
    {
      base := 1;
      var block := firstBlock;
      ghost var i := 0;
      while block != null
        invariant i <= |blocks| && block == BlockAt(i) && base > 0
        invariant forall j | 0 <= j < i :: blocks[j].base + BLOCK_SIZE <= base
        decreases |blocks| - i
      {
        if base < block.base + BLOCK_SIZE {
          base := block.base + BLOCK_SIZE;
        }
        assert blocks[i].nextBlock == BlockAt(i + 1);
        block := block.nextBlock;
        i := i + 1;
      }
    }

    /** When the first block is full, all blocks are. */
    lemma {:induction false} FullFromFirst()
      requires Valid() && (firstBlock == null || firstBlock.firstFree == NULL)
      ensures forall b | b in members :: b.free == [] && b.allocCnt != 0
    {
      if blocks != [] {
        blocks[0].FreeIff();
      }
    }

    /** Adds an unused block in front. */
    method AddBlock()
      requires Valid()
      requires forall b | b in members :: b.free == [] && b.allocCnt != 0
      modifies this
      ensures Valid() && Live() == old(Live())
      ensures exists b :: fresh(b) && blocks == [b] + old(blocks) && members == old(members) + {b} && b.free != []
    {
      hide Block.Valid, Homed, AtMostOneUnused, Linked, Sound;
      var base := Malloc();
      var block := new Block(base);
      Prepend(block);
      AddUnused(members, home, block);
      members := members + {block};
    }

    /** Makes sure that the first block has an unused entry; adds one only when every block is full. */
    method EnsureRoom() returns (block: Block)
      requires Valid()
      modifies this
      ensures Valid() && Live() == old(Live())
      ensures blocks != [] && block == blocks[0] && block.free != []
      ensures members == old(members) ||
              (members == old(members) + {block} && fresh(block) && forall b | b in old(members) :: b.free == [])
    {
      if firstBlock == null || firstBlock.firstFree == NULL {
        FullFromFirst();
        AddBlock();
      }
      block := firstBlock;
      assert block == blocks[0];
      block.FreeIff();
    }

    /** Takes an entry from a block of the pool. */
    method AllocFrom(block: Block) returns (node: Addr)
      requires Sound(members, home) && AtMostOneUnused(members) && block in members && block.free != []
      modifies `home, block`firstFree, block`allocCnt, block`free, block`live
      ensures Sound(members, home) && AtMostOneUnused(members) && block.Valid()
      ensures node != NULL && node !in old(Live()) && Live() == old(Live()) + {node}
    {
      hide Block.Valid, Apart, AtMostOneUnused;
      UnusedEntry(members, home, block);
      OthersUnused(members, block);
      node := block.Alloc();
      home := home[node := block];
      OneMoreUsed(members, block);
    }

    /** Puts a first block that has just become full at the end of the list. */
    method Requeue(block: Block)
      requires Linked() && Distinct() && block.Valid()
      requires blocks != [] && block == blocks[0] && TailOrdered()
      modifies `firstBlock, `lastBlockPtr, `blocks, blocks`nextBlock
      ensures Linked() && Distinct() && Ordered()
      ensures blocks == if block.free == [] then old(blocks[1..]) + [block] else old(blocks)
      ensures forall b | b in blocks :: b in old(blocks)
      ensures forall b | b in old(blocks) :: b in blocks
    {
      hide Block.Valid;
      block.FreeIff();
      ghost var rest := blocks[1..];
      assert blocks == [block] + rest;
      if block.firstFree == NULL && Deref(lastBlockPtr) != block {
        Remove(PoolHead, 0);
        Append(block);
        assert blocks == rest + [block];
      } else {
        FromTail();
      }
    }

    /** Hands out an entry that is not in use. A block is added only when every block is full. */
    method Alloc() returns (node: Addr)
      requires Valid()
      modifies this, members
      ensures Valid()
      ensures node != NULL && node !in old(Live()) && Live() == old(Live()) + {node}
      ensures NoOverlap(Live())
      ensures old(members) <= members && fresh(members - old(members))
      ensures members == old(members) || forall b | b in old(members) :: old(b.free) == []
    {
      hide Block.Valid, Sound, AtMostOneUnused, Linked, Homed, Ordered, Distinct, TailOrdered;
      var block := EnsureRoom();
      TailOf();
      node := AllocFrom(block);
      LiveApart(members, home);
      Requeue(block);
    }

    /** The slot of the block that holds an address; the slot ending the list when there is none. */
    method SearchBlock(node: Addr) returns (slot: BlockSlot, ghost i: nat)
      requires Linked()
      ensures i <= |blocks| && slot == SlotOf(i)
      ensures i < |blocks| ==> blocks[i].Contains(node)
      ensures forall j | 0 <= j < i :: !blocks[j].Contains(node)
    {
      slot, i := PoolHead, 0;
      while Deref(slot) != null
        invariant i <= |blocks| && slot == SlotOf(i) && Deref(slot) == BlockAt(i)
        invariant forall j | 0 <= j < i :: !blocks[j].Contains(node)
        decreases |blocks| - i
      {
        var block := Deref(slot);
        if block.Contains(node) {
          break;
        }
        assert blocks[i].nextBlock == BlockAt(i + 1);
        slot := NextOf(block);
        i := i + 1;
      }
    }

    /** Puts a live entry back into its block. */
    method FreeInto(block: Block, node: Addr)
      requires Sound(members, home) && AtMostOneUnused(members)
      requires block in members && block.Contains(node) && node in Live()
      modifies `home, block`firstFree, block`allocCnt, block`next, block`free, block`live
      ensures Sound(members, home) && AtMostOneUnused(members - {block}) && block.free != []
      ensures Live() == old(Live()) - {node}
    {
      hide Block.Valid, Apart, AtMostOneUnused;
      LiveIn(members, home, block, node);
      OthersUnused(members, block);
      block.Free(node);
      home := home - {node};
    }

    /** Returns an entry to the pool. An unused block is released only when another has room. */
    method Free(node: Addr)
      requires Valid()
      requires node in Live() || forall b | b in members :: !b.Contains(node)
      modifies this, members
      ensures Valid()
      ensures Live() == old(Live()) - {node}
      ensures members <= old(members)
      ensures node !in old(Live()) ==> unchanged(this) && unchanged(members)
    {
      hide Block.Valid, Sound, AtMostOneUnused;
      var slot, i := SearchBlock(node);
      var block := Deref(slot);
      if block == null {
        NotInPool(node);
        return;
      }
      FreeInto(block, node);
      ghost var was := blocks;
      Remove(slot, i);
      RestOrdered(was, i);
      Settle(block);
    }

    lemma {:induction false} NotInPool(node: Addr)
      requires Valid() && forall b | b in blocks :: !b.Contains(node)
      ensures node !in Live()
    {
      forall a | a in home ensures a != node {
        assert home[a] in blocks && home[a].Contains(a);
      }
    }

    lemma {:induction false} RestOrdered(was: seq<Block>, i: nat)
      requires i < |was| && blocks == was[..i] + was[i + 1..]
      requires forall j, k | 0 <= j < k < |was| && j != i && k != i :: was[j].free == [] ==> was[k].free == []
      requires forall j, k | 0 <= j < k < |was| :: was[j] != was[k]
      ensures Ordered() && Distinct()
      ensures was[i] !in blocks
      ensures forall b | b in blocks :: b in was
      ensures forall b | b in was && b != was[i] :: b in blocks
    {
      forall j | 0 <= j < |blocks| ensures blocks[j] == was[if j < i then j else j + 1] {
      }
      assert was == was[..i] + [was[i]] + was[i + 1..];
    }

    /** A block with room goes before all others. */
    method PutInFront(block: Block)
      requires Linked() && Distinct() && Ordered() && block !in blocks && block.free != []
      modifies `firstBlock, `lastBlockPtr, `blocks, block`nextBlock
      ensures Linked() && Distinct() && Ordered() && blocks == [block] + old(blocks)
    {
      Prepend(block);
    }

    /** Releases an unlinked block when it is unused and another has room; else puts it in front. */
    method Settle(block: Block)
      requires Linked() && Distinct() && Ordered()
      requires block !in blocks && block in members && block.free != []
      requires forall b | b in blocks :: b in members
      requires forall b | b in members && b != block :: b in blocks
      requires Sound(members, home) && AtMostOneUnused(members - {block})
      modifies this, block`nextBlock
      ensures Valid() && Live() == old(Live()) && members <= old(members)
      ensures if block.allocCnt == 0 && old(blocks) != [] && old(blocks[0].free) != []
              then blocks == old(blocks) && members == old(members) - {block}
              else blocks == [block] + old(blocks) && members == old(members)
    {
      hide Block.Valid, Sound, AtMostOneUnused, Linked, Distinct, Ordered;
      FirstHasRoom();
      if block.allocCnt == 0 && firstBlock != null && firstBlock.firstFree != NULL {
        Dropped(members, home, block);
        members := members - {block};
      } else {
        OthersUsed(block);
        PutInFront(block);
      }
    }

    lemma {:induction false} FirstHasRoom()
      requires Linked() && Sound(members, home) && forall b | b in blocks :: b in members
      ensures firstBlock != null && firstBlock.firstFree != NULL <==> blocks != [] && blocks[0].free != []
    {
      if blocks != [] {
        blocks[0].FreeIff();
      }
    }

    /** If the first linked block is full, no linked block is unused. */
    lemma {:induction false} OthersUsed(block: Block)
      requires Linked() && Ordered() && Sound(members, home) && block in members
      requires forall b | b in blocks :: b in members
      requires forall b | b in members && b != block :: b in blocks
      requires AtMostOneUnused(members - {block})
      requires block.allocCnt == 0 ==> firstBlock == null || firstBlock.firstFree == NULL
      ensures AtMostOneUnused(members)
    {
      if block.allocCnt == 0 && blocks != [] {
        blocks[0].FreeIff();
        assert forall b | b in blocks :: b.free == [];
      }
    }

    /** Releases all blocks; reports a leak exactly when an entry is still in use. */
    method Destruct() returns (isLeak: bool)
      requires Valid()
      modifies this
      ensures isLeak <==> old(Live()) != {}
      ensures firstBlock == null && lastBlockPtr == NullSlot && blocks == [] && members == {}
    {
      isLeak := false;
      var block := firstBlock;
      ghost var i := 0;
      while block != null
        invariant i <= |blocks| && block == BlockAt(i)
        invariant isLeak <==> exists j | 0 <= j < i :: blocks[j].allocCnt != 0
        decreases |blocks| - i
      {
        if block.allocCnt != 0 {
          isLeak := true;
        }
        assert blocks[i].nextBlock == BlockAt(i + 1);
        block := block.nextBlock;
        i := i + 1;
      }
      LeakIff();
      firstBlock := null;
      lastBlockPtr := NullSlot;
      blocks, members, home := [], {}, map[];
    }

    lemma {:induction false} LeakIff()
      requires Valid()
      ensures Live() != {} <==> exists j | 0 <= j < |blocks| :: blocks[j].allocCnt != 0
    {
      if j :| 0 <= j < |blocks| && blocks[j].allocCnt != 0 {
        blocks[j].LiveSize();
        var a :| a in blocks[j].live;
        assert a in home;
      }
      if home != map[] {
        var a :| a in home;
        home[a].LiveSize();
        var j :| 0 <= j < |blocks| && blocks[j] == home[a];
      }
    }
  }
}
