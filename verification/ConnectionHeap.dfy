// The array heap of src/connection.c: connections keyed by active_time, each holding its own index.
module ConnectionHeap {
  import opened HeapOrder
  import opened Request
  import opened ConnectionRun

  const MAX_CONNECTION: nat := 10240

  /**
   * `connection_t`.  `block` is the cell of the memory pool that the object lives in; `events` and `wire` are what has
   * happened to the connection and what it has sent since it was accepted.
   */
  class Connection {
    const block: nat
    var activeTime: int
    var heapIdx: int
    var req: Request
    ghost var events: seq<Event>
    ghost var wire: string

    constructor (block: nat)
      ensures this.block == block
    {
      this.block := block;
      activeTime, heapIdx, req, events, wire := 0, 0, FRESH, [], "";
    }

    ghost predicate IsNew()
      reads this`req, this`events, this`wire
    {
      req == FRESH && |events| == 0 && wire == ""
    }
  }

  predicate InHeap(n: int, x: int) { -1 < x < n }

  /** `lotos_connections` and `heap_size`. */
  class Heap {
    const slots: array<Connection?>
    var size: nat
    ghost var conns: set<Connection>

    /** The two-way link between the array and the connections in it. */
    ghost predicate Linked()
      reads this, slots, conns`heapIdx
    {
      && slots.Length == MAX_CONNECTION
      && size <= slots.Length
      && (forall i | 0 <= i < size :: slots[i] != null && slots[i] in conns && slots[i].heapIdx == i)
      && (forall c | c in conns :: 0 <= c.heapIdx < size && slots[c.heapIdx] == c)
    }

    ghost function KeysBefore(n: nat): (s: seq<int>)
      requires Linked() && n <= size
      reads this, slots, conns`heapIdx, conns`activeTime
      ensures |s| == n && forall i | 0 <= i < n :: s[i] == slots[i].activeTime
    {
      if n == 0 then [] else KeysBefore(n - 1) + [slots[n - 1].activeTime]
    }

    /** The keys in array order. */
    ghost function Keys(): (s: seq<int>)
      requires Linked()
      reads this, slots, conns`heapIdx, conns`activeTime
      ensures |s| == size && forall i | 0 <= i < size :: s[i] == slots[i].activeTime
    {
      KeysBefore(size)
    }

    ghost predicate Valid()
      reads this, slots, conns`heapIdx, conns`activeTime
    {
      Linked() && Ordered(Keys())
    }

    constructor ()
      ensures Valid() && conns == {} && size == 0 && fresh(slots)
    {
      slots := new Connection?[MAX_CONNECTION](_ => null);
      size := 0;
      conns := {};
    }

    /** `c_swap` */
    method Swap(x: int, y: int)
      requires Linked() && 0 <= x < size && 0 <= y < size
      modifies slots, conns`heapIdx
      ensures Linked() && slots[x] == old(slots[y]) && slots[y] == old(slots[x])
      ensures forall i | 0 <= i < slots.Length && i != x && i != y :: slots[i] == old(slots[i])
      ensures Keys() == Swapped(old(Keys()), x, y)
    {
      hide Keys;
      var tmp := slots[x];
      slots[x] := slots[y];
      slots[y] := tmp;
      slots[x].heapIdx := x;
      slots[y].heapIdx := y;
    }

    /** `heap_bubble_up`: at most log2(start + 1) swaps. */
    method BubbleUp(start: int) returns (ghost k: nat)
      requires Linked() && 0 <= start < size && OrderedButUp(Keys(), start)
      modifies slots, conns`heapIdx
      ensures Valid()
      ensures Pow2(k) <= start + 1
      ensures old(0 < start ==> AboveParent(Keys(), start)) ==> slots[..] == old(slots[..])
    {
      hide Keys, OrderedButUp, Ordered, Swapped, Climbed, Pow2;
      ghost var calm := 0 < start ==> AboveParent(Keys(), start);
      ghost var slots0 := slots[..];
      var idx := start;
      k := 0;
      ClimbNone(start);
      while Parent(idx) >= 0
        invariant Linked() && 0 <= idx < size
        invariant OrderedButUp(Keys(), idx) && Climbed(start, idx, k)
        invariant k > 0 ==> !calm
        invariant k == 0 ==> idx == start && slots[..] == slots0
        invariant k == 0 ==> (calm <==> (0 < start ==> AboveParent(Keys(), start)))
        decreases idx
      {
        var fidx := Parent(idx);
        if slots[idx].activeTime >= slots[fidx].activeTime {
          break;
        }
        SwapUp(Keys(), idx);
        ClimbOne(start, idx, k);
        Swap(idx, fidx);
        idx := fidx;
        k := k + 1;
      }
      OrderedAtTop(Keys(), idx);
      ClimbBound(start, idx, k);
    }

    /** The child of idx that `heap_bubble_down` compares with, or -1 if there is none. */
    method ProperChild(idx: int) returns (c: int)
      requires Linked() && 0 <= idx
      ensures c == -1 ==> AtRest(Keys(), idx)
      ensures c != -1 ==> idx < c < size && (AtRest(Keys(), idx) <==> Keys()[idx] <= Keys()[c])
      ensures c != -1 && OrderedButDown(Keys(), idx) && Keys()[c] < Keys()[idx]
              ==> OrderedButDown(Swapped(Keys(), idx, c), c)
      ensures c != -1 ==> c == LChild(idx) || c == RChild(idx)
    {
      hide Keys, OrderedButDown, Swapped, AtRest;
      var lchild := if InHeap(size, LChild(idx)) then LChild(idx) else size + 1;
      var rchild := if InHeap(size, RChild(idx)) then RChild(idx) else size + 1;
      if lchild > size && rchild > size {
        ChildlessAtRest(Keys(), idx);
        return -1;
      } else if InHeap(size, lchild) && InHeap(size, rchild) {
        c := if slots[lchild].activeTime < slots[rchild].activeTime then lchild else rchild;
      } else if lchild > size {
        c := rchild;
      } else {
        c := lchild;
      }
      Choice(Keys(), idx, c);
    }

    /**
     * `heap_bubble_down`: restores the order when only `start` against its children was out of it, and leaves the array
     * alone when `start` is not above its children.  k > 0 swaps from `start` mean that
     * 2^k * (start + 1) is at most the size.
     */
    method BubbleDown(start: int) returns (ghost k: nat)
      requires Linked() && 0 <= start
      modifies slots, conns`heapIdx
      ensures Linked()
      ensures old(OrderedButDown(Keys(), start)) ==> Valid()
      ensures old(AtRest(Keys(), start)) ==> Keys() == old(Keys())
      ensures k > 0 ==> size > 0 && Descended(start, size - 1, k)
    {
      hide Keys, OrderedButDown, Ordered, Swapped, Descended, Pow2, AtRest;
      ghost var s0 := Keys();
      var idx := start;
      k := 0;
      DescendNone(start);
      while true
        invariant Linked() && 0 <= idx && Descended(start, idx, k)
        invariant if k == 0 then idx == start && Keys() == s0 else idx < size && !AtRest(s0, start)
        invariant OrderedButDown(s0, start) ==> OrderedButDown(Keys(), idx)
        decreases size - idx
      {
        var properChild := ProperChild(idx);
        if properChild == -1 {
          break;
        }
        if slots[idx].activeTime <= slots[properChild].activeTime {
          break;
        }
        DescendOne(start, idx, properChild, k);
        Swap(idx, properChild);
        idx := properChild;
        k := k + 1;
      }
      OrderedAtBottom(Keys(), idx);
      if k > 0 { DescendedWithin(start, idx, size - 1, k); }
    }

    /** `heap_insert`, as `connection_register` calls it.  A newest connection stays in the last slot. */
    method Insert(c: Connection) returns (ok: bool)
      requires Valid() && c !in conns
      modifies this, slots, conns`heapIdx, c`heapIdx
      ensures ok <==> old(size) < MAX_CONNECTION
      ensures Valid() && conns == if ok then old(conns) + {c} else old(conns)
      ensures size == if ok then old(size) + 1 else old(size)
      ensures ok && (forall d | d in old(conns) :: d.activeTime <= c.activeTime) ==> c.heapIdx == size - 1
    {
      hide Keys, Ordered, OrderedButUp;
      if size >= MAX_CONNECTION {
        return false;
      }
      Appended(Keys(), c.activeTime);
      slots[size] := c;
      size := size + 1;
      c.heapIdx := size - 1;
      conns := conns + {c};
      assert Keys() == old(Keys()) + [c.activeTime];
      var _ := BubbleUp(size - 1);
      return true;
    }

    /**
     * `connection_unregister`: the last connection takes the place of c and is bubbled down, never up.  The heap stays
     * ordered exactly when that is enough.
     */
    method Unregister(c: Connection)
      requires Valid() && c in conns
      modifies this, slots, conns`heapIdx
      ensures Linked() && conns == old(conns) - {c} && size == old(size) - 1
      ensures Ordered(Keys()) <==> old(RemovalKeepsOrder(Keys(), c.heapIdx))
    {
      hide Keys, Ordered, OrderedButDown, AtRest;
      RemovalIsRepairable(Keys(), c.heapIdx);
      slots[c.heapIdx] := slots[size - 1];
      slots[c.heapIdx].heapIdx := c.heapIdx;
      size := size - 1;
      conns := conns - {c};
      assert Keys() == old(Removed(Keys(), c.heapIdx));
      var _ := BubbleDown(c.heapIdx);
    }

    /** `connecion_set_reactivated` */
    method SetReactivated(c: Connection, now: int)
      requires Valid() && c in conns && c.activeTime <= now
      modifies slots, conns`heapIdx, c`activeTime
      ensures Valid() && c.activeTime == now
    {
      hide Keys, Ordered, OrderedButDown;
      KeyGrows(Keys(), c.heapIdx, now);
      c.activeTime := now;
      assert Keys() == old(Keys())[c.heapIdx := now];
      var _ := BubbleDown(c.heapIdx);
    }

    /** `connecion_set_expired` */
    method SetExpired(c: Connection)
      requires Valid() && c in conns && 0 <= c.activeTime
      modifies slots, conns`heapIdx, c`activeTime
      ensures Valid() && c.activeTime == 0
    {
      hide Keys, Ordered, OrderedButUp;
      Decreased(Keys(), c.heapIdx, 0);
      c.activeTime := 0;
      assert Keys() == old(Keys())[c.heapIdx := 0];
      var _ := BubbleUp(c.heapIdx);
    }
  }

  /** A larger key at idx disturbs the order downwards only. */
  lemma KeyGrows(s: seq<int>, idx: nat, key: int)
    requires Ordered(s) && idx < |s| && s[idx] <= key
    ensures OrderedButDown(s[idx := key], idx)
  {
    if idx > 0 { assert AboveParent(s, idx); }
    Replaced(s, idx, key);
  }
}
