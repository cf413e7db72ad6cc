// The fixed-size pool of src/mem_pool.c: a free list threaded through the free blocks themselves.
module MemPool {

  /** A block is named by its index: its address is `blocks + index * block_size`.  NULL is -1. */
  const NULL: int := -1

  class Pool {
    const blockNum: nat
    /** The first word of each block: the link of a free block, anything at all in a held one. */
    const words: array<int>
    var next: int
    var blockAllocated: nat
    /** The free list in order, and the blocks handed out. */
    ghost var free: seq<int>
    ghost var held: set<int>

    /**
     * The list has no block twice, so it is acyclic, and it shares none with the blocks that are held; together they
     * are the pool.
     */
    ghost predicate Valid()
      reads this, words
    {
      && words.Length == blockNum
      && Spells(words[..], next, free)
      && (forall i, j | 0 <= i < j < |free| :: free[i] != free[j])
      && (forall b | b in held :: 0 <= b < blockNum && b !in free)
      && (forall b | 0 <= b < blockNum :: b in held || b in free)
      && |held| == blockAllocated
      && |free| == blockNum - blockAllocated
    }

    /** `pool_create`: every block is free, in address order.  It writes into the first block, so there must be one. */
    constructor (nmemb: nat)
      requires nmemb > 0
      ensures Valid() && fresh(words)
      ensures blockNum == nmemb && held == {} && free == seq(nmemb, i => i)
    {
      blockNum := nmemb;
      words := new int[nmemb];
      next := 0;
      blockAllocated := 0;
      free := seq(nmemb, i => i);
      held := {};
      new;
      var p := 0;
      while p < blockNum - 1
        invariant 0 <= p <= blockNum - 1
        invariant free == seq(nmemb, i => i)
        invariant forall i | 0 <= i < p :: words[i] == i + 1
        modifies words
      {
        words[p] := p + 1;
        p := p + 1;
      }
      words[p] := NULL;
      forall b | 0 <= b < blockNum
        ensures b in free
      {
        assert free[b] == b;
      }
      forall i | 0 <= i < |free|
        ensures LinkAt(words[..], free, i)
      {
        assert words[..][i] == words[i];
      }
    }

    /** `pool_alloc`: the head of the free list, or NULL exactly when every block is held. */
    method Alloc() returns (block: int)
      requires Valid()
      modifies this
      ensures Valid()
      ensures block == NULL <==> old(blockAllocated) == blockNum
      ensures block == NULL ==> held == old(held) && free == old(free)
      ensures block != NULL ==> 0 <= block < blockNum && block == old(free[0]) && block !in old(held)
      ensures block != NULL ==> held == old(held) + {block} && free == old(free[1..])
    {
      if blockAllocated >= blockNum {
        return NULL;
      }
      SpellsTail(words[..], next, free);
      block := next;
      if block != NULL {
        next := words[block];
        blockAllocated := blockAllocated + 1;
        held := held + {block};
        free := free[1..];
      }
    }

    /**
     * `pool_free` of a block that is held (or of NULL): it becomes the head of the free list, whatever its owner left
     * in it.
     */
    method Free(block: int)
      requires Valid() && (block == NULL || block in held)
      modifies this, words
      ensures Valid()
      ensures block == NULL ==> held == old(held) && free == old(free)
      ensures block != NULL ==> held == old(held) - {block} && free == [block] + old(free)
    {
      if block == NULL {
        return;
      }
      SpellsPush(words[..], next, free, block);
      words[block] := next;
      assert words[..] == old(words[..])[block := next];
      next := block;
      HeldIsCounted(held, block);
      blockAllocated := blockAllocated - 1;
      held := held - {block};
      free := [block] + free;
    }

    /** The owner of a block may write what it likes into it. */
    method OwnerWrites(block: int, word: int)
      requires Valid() && block in held
      modifies words
      ensures Valid() && words[block] == word
    {
      SpellsElsewhere(words[..], next, free, block, word);
      words[block] := word;
      assert words[..] == old(words[..])[block := word];
    }
  }

  lemma HeldIsCounted(held: set<int>, block: int)
    requires block in held
    ensures |held| > 0 && |held - {block}| == |held| - 1
  {
  }

  // ---------- the list as memory holds it ----------

  /** The blocks met by following links from p, for at most `steps` of them. */
  function Walk(words: seq<int>, p: int, steps: nat): seq<int>
    decreases steps
  {
    if steps == 0 || !(0 <= p < |words|) then [] else [p] + Walk(words, words[p], steps - 1)
  }

  /** The link in block free[i] is the block after it in the list, NULL in the last. */
  predicate LinkAt(words: seq<int>, free: seq<int>, i: nat)
    requires i < |free|
  {
    0 <= free[i] < |words| && words[free[i]] == if i + 1 < |free| then free[i + 1] else NULL
  }

  /** `free` is spelled by the links from p on. */
  predicate Spells(words: seq<int>, p: int, free: seq<int>) {
    && p == (if free == [] then NULL else free[0])
    && forall i | 0 <= i < |free| :: LinkAt(words, free, i)
  }

  lemma SpellsTail(words: seq<int>, p: int, free: seq<int>)
    requires Spells(words, p, free) && free != []
    ensures 0 <= p < |words| && Spells(words, words[p], free[1..])
  {
    assert LinkAt(words, free, 0);
    forall i | 0 <= i < |free[1..]|
      ensures LinkAt(words, free[1..], i)
    {
      assert LinkAt(words, free, i + 1);
    }
  }

  lemma SpellsPush(words: seq<int>, p: int, free: seq<int>, block: int)
    requires Spells(words, p, free) && 0 <= block < |words| && block !in free
    ensures Spells(words[block := p], block, [block] + free)
  {
    var w, t := words[block := p], [block] + free;
    forall i | 0 <= i < |t|
      ensures LinkAt(w, t, i)
    {
      if i > 0 {
        assert LinkAt(words, free, i - 1) && free[i - 1] in free;
      }
    }
  }

  lemma SpellsElsewhere(words: seq<int>, p: int, free: seq<int>, block: int, word: int)
    requires Spells(words, p, free) && 0 <= block < |words| && block !in free
    ensures Spells(words[block := word], p, free)
  {
    var w := words[block := word];
    forall i | 0 <= i < |free|
      ensures LinkAt(w, free, i)
    {
      assert LinkAt(words, free, i) && free[i] in free;
    }
  }

  /** However far the links are followed, they lead through the free list and stop: the list has no cycle. */
  lemma {:induction false} WalkIsTheFreeList(words: seq<int>, p: int, free: seq<int>, steps: nat)
    requires Spells(words, p, free) && |free| <= steps
    ensures Walk(words, p, steps) == free
    decreases steps
  {
    if free != [] {
      SpellsTail(words, p, free);
      WalkIsTheFreeList(words, words[p], free[1..], steps - 1);
    }
  }

  /** Two lists that the same memory spells are the same list. */
  lemma SpellingIsUnique(words: seq<int>, p: int, free: seq<int>, free': seq<int>)
    requires Spells(words, p, free) && Spells(words, p, free')
    ensures free == free'
  {
    var n := |free| + |free'|;
    WalkIsTheFreeList(words, p, free, n);
    WalkIsTheFreeList(words, p, free', n);
  }
}
