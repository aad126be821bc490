/** The FlArena structure and its three operations, as a class whose fields
    the operations update in place.  The two callbacks are one object,
    BlockSource, that stands for the pair alloc_fn / free_fn. */
module FlintArena {
  import opened ArenaSpec

  /** The injected allocation callbacks.  Obtain (alloc_fn) either fails or
      hands out a block that is not live; Release (free_fn) takes back a live
      block.  Every call is recorded in the ghost trace `calls`. */
  class BlockSource {
    var nextId: BlockId
    ghost var live: set<BlockId>
    ghost var calls: seq<Call>

    ghost predicate Valid()
      reads this
    {
      forall id :: id in live ==> id < nextId
    }

    constructor ()
      ensures Valid() && live == {} && calls == []
    {
      nextId := 0;
      live := {};
      calls := [];
    }

    /** alloc_fn(size): a fresh block, or null; which one is not known. */
    method Obtain(size: nat) returns (r: Option<BlockId>)
      requires Valid()
      modifies this
      ensures Valid()
      ensures calls == old(calls) + [Obtained(size, r)]
      ensures r.None? ==> live == old(live)
      ensures r.Some? ==> r.value !in old(live) && live == old(live) + {r.value}
    {
      var granted: bool :| true;
      if granted {
        r := Some(nextId);
        live := live + {nextId};
        nextId := nextId + 1;
      } else {
        r := None;
      }
      calls := calls + [Obtained(size, r)];
    }

    /** free_fn(block): only blocks Obtain handed out and not yet released. */
    method Release(id: BlockId)
      requires Valid() && id in live
      modifies this
      ensures Valid()
      ensures live == old(live) - {id}
      ensures calls == old(calls) + [Released(id)]
    {
      live := live - {id};
      calls := calls + [Released(id)];
    }
  }

  /** FlArena: the chain of blocks (newest first), the cursor, the bytes left
      in the newest block, the callbacks and the nominal block size. */
  class Arena {
    var blocks: seq<Block>
    var current: Ptr
    var sizeLeft: nat
    var source: BlockSource
    var blockSize: nat

    /** The fields other than the callbacks, as a value. */
    function View(): State
      reads this
    {
      State(blocks, current, sizeLeft, blockSize)
    }

    /** The arena invariant, and every chained block is live in the source. */
    ghost predicate Valid()
      reads this, source
    {
      Inv(View()) && source.Valid() && Ids(blocks) <= source.live
    }

    /** Declaring an FlArena and passing it to fl_arena_init. */
    constructor (src: BlockSource, blockSize: nat)
      requires src.Valid()
      ensures Valid() && View() == Empty(blockSize) && source == src
    {
      source := src;
      new;
      Init(src, blockSize);
    }

    /** fl_arena_init: the arena holds no block, the cursor is null, nothing
        is left, and the callbacks and block size are stored.  No callback is
        called: blocks held before stay live in their source (they leak). */
    method Init(src: BlockSource, blockSize: nat)
      requires src.Valid()
      modifies this
      ensures Valid() && View() == Empty(blockSize) && source == src
      ensures old(Valid()) ==> Ids(old(blocks)) <= old(source).live
    {
      blocks := [];
      current := Null;
      sizeLeft := 0;
      source := src;
      this.blockSize := blockSize;
    }

    /** fl_arena_alloc(size).  `obtained` is what alloc_fn answered when it
        was called (None when it was not). */
    method Alloc(size: nat) returns (r: Ptr, ghost obtained: Option<BlockId>)
      requires Valid()
      modifies this, source
      ensures Valid() && source == old(source)
      ensures Step(View(), r) == ArenaSpec.Alloc(old(View()), size, obtained)
      // alloc_fn is called, for max(block_size, size) + BLOCK_OVERHEAD bytes, exactly when too little is left
      ensures size <= old(sizeLeft) ==>
        source.calls == old(source.calls) && source.live == old(source.live) && obtained.None?
      ensures old(sizeLeft) < size ==>
        source.calls == old(source.calls) + [Obtained(RequestSize(blockSize, size), obtained)]
      ensures old(sizeLeft) < size && obtained.Some? ==>
        obtained.value !in old(source.live) && source.live == old(source.live) + {obtained.value}
      ensures old(sizeLeft) < size && obtained.None? ==> source.live == old(source.live)
    {
      obtained := None;
      r := Null;
      var failed := false;
      if sizeLeft < size {
        var capacity := BlockCapacity(blockSize, size);
        var node := source.Obtain(capacity + BLOCK_OVERHEAD);
        obtained := node;
        if node.None? {
          failed := true;
        } else {
          IdsCons(Block(node.value, capacity), blocks);
          blocks := [Block(node.value, capacity)] + blocks;
          current := At(node.value, 0);
          sizeLeft := capacity;
        }
      }
      if !failed {
        r := current;
        sizeLeft := sizeLeft - size;
        current := current.Plus(size);
      }
    }

    /** fl_arena_free: every chained block goes to free_fn once, newest first;
        then the arena is empty again with its configuration untouched. */
    method Free()
      requires Valid()
      modifies this, source
      ensures Valid() && source == old(source)
      ensures View() == Empty(old(blockSize))
      ensures source.calls == old(source.calls) + Releases(old(blocks))
      ensures source.live == old(source.live) - Ids(old(blocks))
    {
      var i := 0;
      while i < |blocks|
        modifies source
        invariant i <= |blocks|
        invariant source.Valid()
        invariant source.calls == old(source.calls) + Releases(blocks[..i])
        invariant source.live == old(source.live) - Ids(blocks[..i])
      {
        ReleaseStep(blocks, i);
        source.Release(blocks[i].id);
        i := i + 1;
      }
      assert blocks[..i] == blocks;
      blocks := [];
      current := Null;
      sizeLeft := 0;
    }
  }

  /** A client: init, two allocations, release, an allocation after release. */
  method Client(src: BlockSource)
    requires src.Valid() && src.live == {}
    modifies src
    ensures src.live == {}
  {
    var arena := new Arena(src, 64);
    var p, a := arena.Alloc(10);
    var q, b := arena.Alloc(10);
    assert a.Some? ==> p == At(a.value, 0) && q == At(a.value, 10) && arena.sizeLeft == 44;
    arena.Free();
    assert arena.blocks == [] && arena.sizeLeft == 0;
    ghost var liveBefore := src.live;
    var t, c := arena.Alloc(5);
    assert c.Some? ==> arena.blocks == [Block(c.value, 64)] && c.value !in liveBefore;
    arena.Free();
  }
}
