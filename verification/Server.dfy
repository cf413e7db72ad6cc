// The event loop of src/main.c over the connection heap and the memory pool.
//
// The environment is adversarial: which connections are ready and in what order, the bytes and socket answers of each
// event, whether registering an accepted connection succeeds, and how far the clock has moved at each reading.
module Server {
  import opened Request
  import opened ConnectionHeap
  import opened HeapOrder
  import opened ConnectionRun
  import MemPool
  import X = Exchanges

  /** `time(NULL)`: it never goes back. */
  class Clock {
    var now: int

    constructor (start: int)
      ensures now == start
    {
      now := start;
    }

    method Time() returns (t: int)
      modifies this
      ensures t == now && old(now) <= now
    {
      t :| now <= t;
      now := t;
    }
  }

  /**
   * One entry of the array that epoll_wait fills: the listening socket, with whether the buffers and the registration
   * of each waiting peer will be had, or a connection.
   */
  datatype Ready =
    | Listening(peers: seq<(bool, bool)>)
    | Conn(c: Connection, e: Event)

  const POOL_BLOCKS: nat := 1024

  /** The connections are exactly those that live in the held blocks. */
  ghost predicate Matches(blocks: seq<Connection>, conns: set<Connection>, held: set<int>) {
    && |blocks| == POOL_BLOCKS
    && (forall i | 0 <= i < |blocks| :: blocks[i].block == i)
    && (forall i | 0 <= i < |blocks| :: blocks[i] in conns <==> i in held)
    && (forall c | c in conns :: c.block < |blocks| && blocks[c.block] == c)
    && (forall b | b in held :: 0 <= b < POOL_BLOCKS)
  }

  /**
   * What has happened to a connection is a possible life of one, and it has sent what that life sends.  Unless it is
   * marked expired it is open, and its request is where that life leaves it.
   */
  ghost predicate HasLived(expired: bool, req: Request, events: seq<Event>, wire: string) {
    FreshMask();
    && Possible(FRESH, events)
    && Live(FRESH, events).wire == wire
    && (if expired then Live(FRESH, events).Closed? else Live(FRESH, events) == Open(req, wire) && MaskOk(req))
  }

  ghost predicate Lived(c: Connection)
    reads c`activeTime, c`req, c`events, c`wire
  {
    HasLived(c.activeTime == 0, c.req, c.events, c.wire)
  }

  lemma NewHasLived()
    ensures HasLived(false, FRESH, [], "")
  {
    FreshMask();
  }

  /** The life goes on with the event, and ends with it when the handler fails. */
  lemma LivesOn(req: Request, events: seq<Event>, wire: string, e: Event)
    requires HasLived(false, req, events, wire) && MaskOk(req) && Armed(req, e)
    ensures var (ret, req', more) := ConnectionRun.Dispatch(req, e);
            ret != FAULT ==> HasLived(ret == ERROR, req', events + [e], wire + more)
  {
    hide ConnectionRun.Dispatch, MaskOk, Armed, Live, Possible;
    FreshMask();
    DispatchKeepsMask(req, e);
    OneEventMore(FRESH, events, e);
  }

  /** Nothing has happened to the connection. */
  twostate predicate Rested(c: Connection)
    reads c
  {
    c.req == old(c.req) && c.events == old(c.events) && c.wire == old(c.wire)
  }

  /** Nor has its time been changed. */
  twostate predicate Still(c: Connection)
    reads c
  {
    Rested(c) && c.activeTime == old(c.activeTime)
  }

  /** The event has been handled. */
  twostate predicate Took(c: Connection, e: Event)
    requires MaskOk(old(c.req)) && Armed(old(c.req), e)
    reads c
  {
    && c.req == ConnectionRun.Dispatch(old(c.req), e).1
    && c.events == old(c.events) + [e]
    && c.wire == old(c.wire) + ConnectionRun.Dispatch(old(c.req), e).2
  }

  lemma MatchGrows(blocks: seq<Connection>, conns: set<Connection>, held: set<int>, b: int)
    requires Matches(blocks, conns, held) && 0 <= b < POOL_BLOCKS && b !in held
    ensures |blocks| == POOL_BLOCKS && blocks[b] !in conns && blocks[b].block == b
    ensures Matches(blocks, conns + {blocks[b]}, held + {b})
  {
    var more := conns + {blocks[b]};
    forall i | 0 <= i < |blocks|
      ensures blocks[i] in more <==> i in held + {b}
    {
      assert blocks[i].block == i;
    }
  }

  lemma MatchShrinks(blocks: seq<Connection>, conns: set<Connection>, held: set<int>, c: Connection)
    requires Matches(blocks, conns, held) && c in conns
    ensures c.block in held && c.block < |blocks| && blocks[c.block] == c
    ensures Matches(blocks, conns - {c}, held - {c.block})
  {
    assert blocks[c.block] == c;
    var less := conns - {c};
    forall i | 0 <= i < |blocks|
      ensures blocks[i] in less <==> i in held - {c.block}
    {
      assert blocks[i].block == i;
    }
  }

  lemma {:induction false} MatchCounts(blocks: seq<Connection>, conns: set<Connection>, held: set<int>)
    requires Matches(blocks, conns, held)
    ensures |conns| == |held| <= POOL_BLOCKS
    decreases |held|
  {
    if c :| c in conns {
      MatchShrinks(blocks, conns, held, c);
      MatchCounts(blocks, conns - {c}, held - {c.block});
    } else if b :| b in held {
      assert blocks[b] in conns;
    }
    HeldIsBounded(held, POOL_BLOCKS);
  }

  /** How many of the peers get their buffers and are added to epoll. */
  function Admitted(peers: seq<(bool, bool)>): nat {
    if peers == [] then 0
    else Admitted(peers[..|peers| - 1]) + if peers[|peers| - 1].0 && peers[|peers| - 1].1 then 1 else 0
  }

  function AdmittedIn(xs: seq<Ready>): nat {
    if xs == [] then 0
    else AdmittedIn(xs[..|xs| - 1]) + match xs[|xs| - 1] case Listening(peers) => Admitted(peers) case _ => 0
  }

  function Least(x: nat, y: nat): nat {
    if x < y then x else y
  }

  class Loop {
    const heap: Heap
    const pool: MemPool.Pool
    /** The connection objects that live in the blocks of the pool. */
    const blocks: seq<Connection>
    const clock: Clock
    const timeout: int

    /** Heap entries, with the connections in `extra`, are exactly the allocated blocks. */
    ghost predicate BijectionWith(extra: set<Connection>)
      reads heap, pool
    {
      pool.blockNum == POOL_BLOCKS && Matches(blocks, heap.conns + extra, pool.held)
    }

    /** Every active time is a time that has been read, or the mark of expiry, and every connection has lived. */
    ghost predicate Dated()
      reads heap, heap.conns`activeTime, heap.conns`req, heap.conns`events, heap.conns`wire, clock
    {
      && timeout < clock.now && 0 < clock.now
      && (forall c | c in heap.conns :: 0 <= c.activeTime <= clock.now)
      && (forall c | c in heap.conns :: Lived(c))
    }

    /** The state when the connections in `extra` are allocated but not registered. */
    ghost predicate SoundWith(extra: set<Connection>)
      reads heap, heap.slots, heap.conns, pool, pool.words, clock
    {
      heap.Valid() && pool.Valid() && BijectionWith(extra) && Dated()
    }

    /** Holds at every step of the loop.  A connection that is marked expired has no promise on its request. */
    ghost predicate Sound()
      reads heap, heap.slots, heap.conns, pool, pool.words, clock
    {
      SoundWith({})
    }

    /** Holds between rounds: no connection is marked expired. */
    ghost predicate Valid()
      reads heap, heap.slots, heap.conns, pool, pool.words, clock
    {
      Sound() && forall c | c in heap.conns :: c.activeTime != 0
    }

    constructor (blocks: seq<Connection>, start: int, timeout: int)
      requires |blocks| == POOL_BLOCKS && forall i | 0 <= i < |blocks| :: blocks[i].block == i
      requires timeout < start && 0 < start
      ensures Valid() && heap.conns == {}
      ensures fresh(heap) && fresh(heap.slots) && fresh(pool) && fresh(pool.words) && fresh(clock)
      ensures this.blocks == blocks && this.timeout == timeout
    {
      heap := new Heap();
      pool := new MemPool.Pool(POOL_BLOCKS);
      this.blocks := blocks;
      clock := new Clock(start);
      this.timeout := timeout;
    }

    /** As many connections are registered as blocks are allocated, so the heap is never near its capacity. */
    lemma HeapSizeIsAllocated(extra: set<Connection>)
      requires heap.Valid() && pool.Valid() && BijectionWith(extra) && extra !! heap.conns
      ensures heap.size + |extra| == pool.blockAllocated <= POOL_BLOCKS < MAX_CONNECTION
    {
      MatchCounts(blocks, heap.conns + extra, pool.held);
      SizeIsCount(heap);
    }

    /** Removing c is a removal that bubbling down repairs. */
    ghost predicate Removable(c: Connection)
      requires heap.Linked() && c in heap.conns
      reads heap, heap.slots, heap.conns
    {
      RemovalKeepsOrder(heap.Keys(), c.heapIdx)
    }

    /** `connection_unregister`: the connection is out of the heap, its block still held. */
    method Unlink(c: Connection)
      requires Sound() && c in heap.conns && Removable(c)
      modifies heap, heap.slots, heap.conns`heapIdx
      ensures SoundWith({c}) && heap.conns == old(heap.conns) - {c} && heap.size == old(heap.size) - 1
    {
      hide HasLived, MaskOk, Heap.Keys, Ordered, Matches, MemPool.Pool.Valid;
      heap.Unregister(c);
      assert heap.conns + {c} == old(heap.conns + {});
    }

    /** `connection_free`: the block of a connection that is not registered goes back to the pool. */
    method Discard(c: Connection)
      requires SoundWith({c}) && c !in heap.conns
      modifies pool, pool.words
      ensures Sound() && pool.held == old(pool.held) - {c.block}
    {
      hide Dated, Heap.Valid, Matches, MemPool.Pool.Valid;
      MatchShrinks(blocks, heap.conns + {c}, pool.held, c);
      pool.Free(c.block);
      assert heap.conns + {c} - {c} == heap.conns + {};
    }

    /** `connection_close` of a registered connection: out of the heap, its block back to the pool. */
    method Close(c: Connection)
      requires Sound() && c in heap.conns && Removable(c)
      modifies heap, heap.slots, heap.conns`heapIdx, pool, pool.words
      ensures Sound() && heap.conns == old(heap.conns) - {c} && heap.size == old(heap.size) - 1
    {
      hide SoundWith, Removable;
      Unlink(c);
      Discard(c);
    }

    /** The object that lives in a block from the pool, or NULL when the pool is empty. */
    method TakeBlock() returns (c: Connection?)
      requires Sound()
      modifies pool, pool.words
      ensures c == null <==> old(pool.blockAllocated) == POOL_BLOCKS
      ensures SoundWith(if c == null then {} else {c})
      ensures c != null ==> c !in heap.conns && c in blocks
    {
      hide Dated, Heap.Valid, Matches, MemPool.Pool.Valid;
      assert heap.conns + {} == heap.conns;
      var b := pool.Alloc();
      if b == MemPool.NULL {
        return null;
      }
      MatchGrows(blocks, heap.conns, old(pool.held), b);
      c := blocks[b];
    }

    /** The block with a fresh request in it. */
    method Take() returns (c: Connection?)
      requires Sound()
      modifies blocks`req, blocks`events, blocks`wire, pool, pool.words
      ensures c == null <==> old(pool.blockAllocated) == POOL_BLOCKS
      ensures SoundWith(if c == null then {} else {c})
      ensures c != null ==> c !in heap.conns && c.IsNew()
      ensures forall d | d in heap.conns :: Rested(d)
    {
      hide SoundWith, Connection.IsNew;
      c := TakeBlock();
      if c != null {
        Renew(c);
      }
    }

    /** The object is used again, for a connection that has just been accepted. */
    method Renew(c: Connection)
      requires SoundWith({c}) && c !in heap.conns
      modifies c`req, c`events, c`wire
      ensures SoundWith({c}) && c.IsNew()
    {
      hide Heap.Valid, Matches, MemPool.Pool.Valid, Lived;
      c.req, c.events, c.wire := FRESH, [], "";
    }

    /** `connection_init`: NULL when there is no block or the buffers cannot be had; then no block is kept. */
    method Init(buffers: bool) returns (c: Connection?)
      requires Sound()
      modifies blocks`req, blocks`events, blocks`wire, pool, pool.words
      ensures c == null <==> old(pool.blockAllocated) == POOL_BLOCKS || !buffers
      ensures SoundWith(if c == null then {} else {c})
      ensures c != null ==> c !in heap.conns && c.IsNew()
      ensures forall d | d in heap.conns :: Rested(d)
    {
      hide SoundWith;
      c := Take();
      if c != null && !buffers {
        Discard(c);
        c := null;
      }
    }

    /** The registered connections are among the blocks, and the clock is past the timeout. */
    lemma Basics(extra: set<Connection>)
      requires SoundWith(extra)
      ensures forall c | c in heap.conns :: c in blocks
      ensures forall c | c in extra :: c in blocks
      ensures timeout < clock.now
    {
      forall c | c in heap.conns + extra
        ensures c in blocks
      {
        assert blocks[c.block] == c;
      }
    }

    lemma Registered()
      requires Sound()
      ensures forall c | c in heap.conns :: c in blocks
      ensures timeout < clock.now
    {
      Basics({});
      assert heap.conns + {} == heap.conns;
    }

    lemma LastIsRemovable(c: Connection)
      requires Sound() && c in heap.conns && c.heapIdx == heap.size - 1
      ensures heap.Linked() && Removable(c)
    {
    }

    /** The new connection is given the present time. */
    method Stamp(c: Connection)
      requires c !in heap.conns && SoundWith({c})
      modifies c`activeTime, clock
      ensures SoundWith({c}) && c.activeTime == clock.now && old(clock.now) <= clock.now
    {
      hide HasLived, MaskOk, Heap.Valid, BijectionWith, MemPool.Pool.Valid;
      var now := clock.Time();
      c.activeTime := now;
    }

    /**
     * `connection_register` of a connection with the present time: it never fails, and the connection goes into the
     * last slot.
     */
    method Register(c: Connection)
      requires c !in heap.conns && SoundWith({c}) && c.IsNew() && c.activeTime == clock.now
      modifies heap, heap.slots, heap.conns`heapIdx, c`heapIdx
      ensures Sound() && heap.conns == old(heap.conns) + {c}
      ensures c.heapIdx == heap.size - 1 && heap.size == old(heap.size) + 1
    {
      hide HasLived, MaskOk, Heap.Valid, Matches, MemPool.Pool.Valid;
      NewHasLived();
      assert c.events == [];
      HeapSizeIsAllocated({c});
      var ok := heap.Insert(c);
      assert ok;
      assert heap.conns + {} == old(heap.conns) + {c};
    }

    /**
     * `connection_accept`: NULL when there is no block or no buffer, or the descriptor cannot be added to epoll.  In
     * the last case the connection is closed again at once, from the last slot.
     */
    method Accept(buffers: bool, added: bool) returns (c: Connection?)
      requires Sound()
      modifies heap, heap.slots, blocks, pool, pool.words, clock
      ensures Sound() && old(clock.now) <= clock.now
      ensures forall d | d in old(heap.conns) :: Still(d)
      ensures c == null <==> old(pool.blockAllocated) == POOL_BLOCKS || !buffers || !added
      ensures c == null ==> heap.conns == old(heap.conns) && heap.size == old(heap.size)
      ensures c != null ==> heap.size == old(heap.size) + 1
      ensures c != null ==> c !in old(heap.conns) && heap.conns == old(heap.conns) + {c}
      ensures c != null ==> c.activeTime == clock.now && c.IsNew()
    {
      hide SoundWith, Removable, Connection.IsNew;
      c := Init(buffers);
      if c == null {
        return null;
      }
      Basics({c});
      Stamp(c);
      Register(c);
      if !added {
        Registered();
        LastIsRemovable(c);
        Close(c);
        return null;
      }
    }

    /**
     * `connection_prune`: removes exactly the connections whose age reaches the timeout at its last reading of the
     * clock and leaves the others as they are.
     */
    method Prune()
      requires Sound()
      modifies heap, heap.slots, heap.conns`heapIdx, pool, pool.words, clock
      ensures Sound() && old(clock.now) <= clock.now
      ensures heap.conns == set c | c in old(heap.conns) && clock.now - c.activeTime < timeout
    {
      hide HasLived, MaskOk, Heap.Valid, MemPool.Pool.Valid, BijectionWith, Removable;
      while heap.size > 0
        invariant Sound() && old(clock.now) <= clock.now
        invariant heap.conns <= old(heap.conns)
        invariant forall c | c in old(heap.conns) && c !in heap.conns :: clock.now - c.activeTime >= timeout
        decreases heap.size
      {
        RootIsOldest();
        var c := heap.slots[0];
        var now := clock.Time();
        if now - c.activeTime >= timeout {
          Close(c);
        } else {
          break;
        }
      }
      if heap.size == 0 {
        EmptyHeap();
      }
    }

    lemma EmptyHeap()
      requires Sound() && heap.size == 0
      ensures heap.conns == {}
    {
      SizeIsCount(heap);
    }

    lemma RootIsOldest()
      requires Sound() && heap.size > 0
      ensures heap.Linked() && 0 < heap.slots.Length && heap.slots[0] != null && heap.slots[0] in heap.conns
              && Removable(heap.slots[0])
      ensures forall c | c in heap.conns :: heap.slots[0].activeTime <= c.activeTime
    {
      forall c | c in heap.conns
        ensures heap.slots[0].activeTime <= c.activeTime
      {
        RootIsLeast(heap.Keys(), c.heapIdx);
      }
    }

    /**
     * Good requests that the loop has brought to a connection have been answered in order: what it has sent since it
     * was accepted begins with the answers when each could finish, and there are no other bytes when nothing else has
     * come.
     */
    lemma AnswersAreSent(c: Connection, xs: seq<X.Exchange>, later: seq<Event>)
      requires Sound() && c in heap.conns
      requires c.events == X.AllEvents(xs) + later && forall x | x in xs :: X.Asks(x)
      ensures (forall x | x in xs :: X.Finishes(x)) ==> X.Answers(xs) <= c.wire
      ensures later == [] ==> c.wire <= X.Answers(xs)
    {
      hide MaskOk, X.Asks, X.Finishes, Heap.Valid, MemPool.Pool.Valid, BijectionWith, Possible, Live, X.AllEvents,
           X.Answers;
      FreshMask();
      LifeInParts(FRESH, X.AllEvents(xs), later);
      X.AnswersGoOutInOrder(xs);
      assert later == [] ==> X.AllEvents(xs) + later == X.AllEvents(xs);
      assert Lived(c);
    }

    // ---------- one round of the loop ----------

    /** The event can be reported now: its connection is registered, not marked expired, and armed for it. */
    ghost predicate Reportable(x: Ready)
      reads heap, heap.conns
    {
      x.Conn? ==> x.c in heap.conns && x.c.activeTime != 0 && MaskOk(x.c.req) && Armed(x.c.req, x.e)
    }

    /** What epoll_wait may fill in: any reportable events, at most one for each connection. */
    ghost predicate Batch(xs: seq<Ready>)
      reads heap, heap.conns
    {
      && (forall i | 0 <= i < |xs| :: Reportable(xs[i]))
      && (forall i, j | 0 <= i < j < |xs| && xs[i].Conn? && xs[j].Conn? :: xs[i].c != xs[j].c)
    }

    /** `server_accept` */
    method AcceptAll(peers: seq<(bool, bool)>)
      requires Sound()
      modifies heap, heap.slots, blocks, pool, pool.words, clock
      ensures Sound() && old(clock.now) <= clock.now
      ensures old(heap.conns) <= heap.conns && heap.size == Least(POOL_BLOCKS, old(heap.size) + Admitted(peers))
      ensures forall d | d in old(heap.conns) :: Still(d)
      ensures forall d | d in heap.conns && d !in old(heap.conns) :: d.IsNew()
    {
      hide HasLived, MaskOk, Heap.Valid, MemPool.Pool.Valid, BijectionWith, Sound;
      var i := 0;
      SizeBounded();
      while i < |peers|
        invariant 0 <= i <= |peers|
        invariant Sound() && old(clock.now) <= clock.now
        invariant old(heap.conns) <= heap.conns
        invariant heap.size == Least(POOL_BLOCKS, old(heap.size) + Admitted(peers[..i]))
        invariant forall d | d in old(heap.conns) :: Still(d)
        invariant forall d | d in heap.conns && d !in old(heap.conns) :: d.IsNew()
      {
        SizeBounded();
        assert peers[..i + 1][..i] == peers[..i];
        var _ := Accept(peers[i].0, peers[i].1);
        i := i + 1;
      }
      assert peers[..|peers|] == peers;
    }

    lemma SizeBounded()
      requires Sound()
      ensures heap.size == pool.blockAllocated <= POOL_BLOCKS
    {
      assert heap.conns + {} == heap.conns;
      HeapSizeIsAllocated({});
    }

    /** The call of the handler: nothing but the request changes. */
    method Serve(c: Connection, e: Event) returns (ret: Ret)
      requires Lived(c) && c.activeTime != 0 && MaskOk(c.req) && Armed(c.req, e)
      modifies c`req, c`events, c`wire
      ensures ret == ConnectionRun.Dispatch(old(c.req), e).0 && Took(c, e)
      ensures ret != FAULT ==> HasLived(ret == ERROR, c.req, c.events, c.wire)
    {
      hide HasLived, MaskOk, ConnectionRun.Dispatch, Armed;
      LivesOn(c.req, c.events, c.wire, e);
      var (status, req', wire) := ConnectionRun.Dispatch(c.req, e);
      ret := status;
      c.req, c.events, c.wire := req', c.events + [e], c.wire + wire;
    }

    /** The mark of expiry when the handler has failed, and the present time when it has not. */
    method Mark(c: Connection, ret: Ret)
      requires heap.Valid() && pool.Valid() && BijectionWith({}) && timeout < clock.now
               && 0 < clock.now && c in heap.conns
      requires forall d | d in heap.conns :: 0 <= d.activeTime <= clock.now && (d != c ==> Lived(d))
      requires HasLived(ret == ERROR, c.req, c.events, c.wire)
      modifies heap.slots, heap.conns`heapIdx, c`activeTime, clock
      ensures Sound() && old(clock.now) <= clock.now
      ensures c.activeTime == if ret == ERROR then 0 else clock.now
    {
      hide HasLived, MaskOk, Heap.Valid, MemPool.Pool.Valid, Matches;
      if ret == ERROR {
        heap.SetExpired(c);
      } else {
        var now := clock.Time();
        heap.SetReactivated(c, now);
      }
    }

    /**
     * The body of the loop for a connection: one that is too old already is left alone; otherwise the handler runs and
     * the connection is marked expired when it fails and made the youngest when it does not.
     */
    method Handle(c: Connection, e: Event) returns (handled: bool, ret: Ret)
      requires Sound() && Reportable(Conn(c, e))
      modifies heap.slots, heap.conns`heapIdx, c`activeTime, c`req, c`events, c`wire, clock
      ensures old(clock.now) <= clock.now
      ensures !handled ==> clock.now - c.activeTime > timeout && c.activeTime == old(c.activeTime) && Rested(c)
      ensures handled ==> old(clock.now - c.activeTime) <= timeout
      ensures handled ==> ret == ConnectionRun.Dispatch(old(c.req), e).0 && Took(c, e)
      ensures handled && ret != FAULT ==> c.activeTime == if ret == ERROR then 0 else clock.now
      ensures !handled || ret != FAULT ==> Sound()
    {
      hide HasLived, MaskOk, Heap.Valid, MemPool.Pool.Valid, BijectionWith, ConnectionRun.Dispatch, Armed;
      var now := clock.Time();
      if now - c.activeTime > timeout {
        return false, OK;
      }
      handled := true;
      ret := Serve(c, e);
      if ret != FAULT {
        Mark(c, ret);
      }
    }

    /** No event is for the connection. */
    ghost predicate Spares(xs: seq<Ready>, c: Connection) {
      forall i | 0 <= i < |xs| && xs[i].Conn? :: xs[i].c != c
    }

    lemma SparesOneMore(xs: seq<Ready>, i: nat)
      requires i < |xs|
      ensures forall c | Spares(xs[..i + 1], c) :: Spares(xs[..i], c) && (xs[i].Conn? ==> xs[i].c != c)
    {
      forall c | Spares(xs[..i + 1], c)
        ensures Spares(xs[..i], c) && (xs[i].Conn? ==> xs[i].c != c)
      {
        assert xs[..i + 1][i] == xs[i];
        assert forall j | 0 <= j < i :: xs[..i][j] == xs[..i + 1][j];
      }
    }

    /** The handler of this event fails. */
    ghost predicate Fails(x: Ready)
      requires x.Conn? ==> MaskOk(x.c.req) && Armed(x.c.req, x.e)
      reads if x.Conn? then {x.c} else {}
    {
      x.Conn? && ConnectionRun.Dispatch(x.c.req, x.e).0 == ERROR
    }

    /** The turn of this event is over: its connection is old, or the handler has not failed and has had it. */
    twostate predicate Past(c: Connection, e: Event)
      requires MaskOk(old(c.req)) && Armed(old(c.req), e)
      reads c, clock
    {
      && (|| clock.now - c.activeTime >= timeout
          || (Took(c, e) && ConnectionRun.Dispatch(old(c.req), e).0 != ERROR))
      && (ConnectionRun.Dispatch(old(c.req), e).0 != ERROR ==> c.activeTime >= old(c.activeTime))
    }

    lemma ActiveInPast()
      requires Sound()
      ensures forall c | c in heap.conns :: c.activeTime <= clock.now
    {
    }

    /** The body of the loop: one entry of the batch. */
    method HandleOne(x: Ready) returns (crashed: bool)
      requires Sound() && Reportable(x)
      modifies heap, heap.slots, blocks, pool, pool.words, clock
      ensures old(clock.now) <= clock.now
      ensures !crashed ==> Sound() && old(heap.conns) <= heap.conns
      ensures !crashed ==> heap.size == Least(POOL_BLOCKS, old(heap.size) + AdmittedIn([x]))
      ensures !crashed ==> forall c | c in heap.conns && c !in old(heap.conns) :: c.IsNew()
      ensures !crashed && x.Conn? ==> Past(x.c, x.e)
      ensures !crashed ==> forall c | c in old(heap.conns) && (x.Conn? ==> c != x.c) :: Still(c)
      ensures crashed ==> x.Conn? && old(ConnectionRun.Dispatch(x.c.req, x.e)).0 == FAULT
    {
      hide HasLived, MaskOk, Armed, ConnectionRun.Dispatch, Sound;
      Registered();
      SizeBounded();
      ActiveInPast();
      assert [x][..0] == [];
      match x {
        case Listening(peers) =>
          AcceptAll(peers);
          return false;
        case Conn(c, e) =>
          var handled, ret := Handle(c, e);
          return handled && ret == FAULT;
      }
    }

    lemma NoneAdmitted()
      ensures forall xs: seq<Ready> | |xs| == 0 :: AdmittedIn(xs) == 0
    {
    }

    lemma AdmittedOneMore(xs: seq<Ready>, i: nat)
      requires i < |xs|
      ensures AdmittedIn(xs[..i + 1]) == AdmittedIn(xs[..i]) + AdmittedIn([xs[i]])
    {
      assert xs[..i + 1][..i] == xs[..i];
      assert [xs[i]][..0] == [];
    }

    /**
     * The events of the batch, in order.  No registered connection is closed on the way, so every event still names a
     * registered one when its turn comes.
     */
    method HandleAll(xs: seq<Ready>) returns (crashed: bool)
      requires Valid() && Batch(xs)
      modifies heap, heap.slots, blocks, pool, pool.words, clock
      ensures !crashed ==> Sound() && old(clock.now) <= clock.now
      ensures !crashed ==> old(heap.conns) <= heap.conns
      ensures !crashed ==> heap.size == Least(POOL_BLOCKS, old(heap.size) + AdmittedIn(xs))
      ensures !crashed ==> forall c | c in heap.conns && c !in old(heap.conns) :: c.IsNew()
      ensures !crashed ==> forall i | 0 <= i < |xs| && xs[i].Conn? && !old(Fails(xs[i])) ::
                xs[i].c.activeTime >= old(xs[i].c.activeTime)
      ensures !crashed ==> forall i | 0 <= i < |xs| && old(Fails(xs[i])) :: clock.now - xs[i].c.activeTime >= timeout
      ensures !crashed ==> forall i | 0 <= i < |xs| && xs[i].Conn? ::
                clock.now - xs[i].c.activeTime >= timeout || Took(xs[i].c, xs[i].e)
      ensures !crashed ==> forall c | c in old(heap.conns) && Spares(xs, c) :: Still(c)
      ensures crashed ==> old(clock.now) <= clock.now
      ensures crashed ==> exists i ::
                0 <= i < |xs| && xs[i].Conn? && old(ConnectionRun.Dispatch(xs[i].c.req, xs[i].e)).0 == FAULT
    {
      hide HasLived, MaskOk, Armed, ConnectionRun.Dispatch, Sound, Spares, AdmittedIn;
      assert xs[..|xs|] == xs;
      SizeBounded();
      NoneAdmitted();
      var i := 0;
      while i < |xs|
        invariant 0 <= i <= |xs|
        invariant Sound() && old(clock.now) <= clock.now
        invariant old(heap.conns) <= heap.conns
        invariant forall j | i <= j < |xs| :: Reportable(xs[j])
        invariant heap.size == Least(POOL_BLOCKS, old(heap.size) + AdmittedIn(xs[..i]))
        invariant forall c | c in heap.conns && c !in old(heap.conns) :: c.IsNew()
        invariant forall j | i <= j < |xs| && xs[j].Conn? :: Still(xs[j].c)
        invariant forall j | 0 <= j < i && xs[j].Conn? :: Past(xs[j].c, xs[j].e)
        invariant forall c | c in old(heap.conns) && Spares(xs[..i], c) :: Still(c)
        decreases |xs| - i
      {
        Registered();
        SparesOneMore(xs, i);
        AdmittedOneMore(xs, i);
        crashed := HandleOne(xs[i]);
        if crashed {
          return;
        }
        i := i + 1;
      }
      return false;
    }

    /** The peer has closed the connection, or reading from it has failed. */
    ghost predicate PeerIsGone(x: Ready) {
      x.Conn? && x.e.Readable? && (x.e.end == Eof || x.e.end == Failed)
    }

    lemma GoneFails(xs: seq<Ready>)
      requires Batch(xs)
      ensures forall i | 0 <= i < |xs| && PeerIsGone(xs[i]) :: Fails(xs[i])
    {
      hide MaskOk, ConnectionRun.Dispatch;
      forall i | 0 <= i < |xs| && PeerIsGone(xs[i])
        ensures Fails(xs[i])
      {
        ReadFailsExactlyWhen(xs[i].c.req, xs[i].e.bytes, xs[i].e.end, xs[i].e.w);
      }
    }

    /**
     * One round: the batch, then the prune.  A connection whose handler failed is closed by the prune of the same
     * round, whatever else the batch holds; a connection that the batch does not mention stays exactly when it is young
     * enough; and after the round every connection is in order again.
     */
    method Round(xs: seq<Ready>) returns (crashed: bool)
      requires Valid() && Batch(xs)
      modifies heap, heap.slots, blocks, pool, pool.words, clock
      ensures old(clock.now) <= clock.now
      ensures !crashed ==> Valid()
      ensures !crashed ==> forall i | 0 <= i < |xs| && old(Fails(xs[i])) :: xs[i].c !in heap.conns
      ensures !crashed ==> forall i | 0 <= i < |xs| && PeerIsGone(xs[i]) :: xs[i].c !in heap.conns
      ensures !crashed ==> forall i | 0 <= i < |xs| && xs[i].Conn? && xs[i].c in heap.conns ::
                Took(xs[i].c, xs[i].e)
      ensures !crashed ==> forall i | 0 <= i < |xs| && xs[i].Conn? && !old(Fails(xs[i])) ::
                clock.now - old(xs[i].c.activeTime) < timeout ==> xs[i].c in heap.conns
      ensures !crashed ==> forall c | c in heap.conns && c !in old(heap.conns) :: c.IsNew()
      ensures !crashed ==> forall c | c in heap.conns :: clock.now - c.activeTime < timeout
      ensures !crashed ==> forall c | c in old(heap.conns) && Spares(xs, c) ::
                (c in heap.conns <==> clock.now - old(c.activeTime) < timeout) && Rested(c)
      ensures crashed ==> exists i ::
                0 <= i < |xs| && xs[i].Conn? && old(ConnectionRun.Dispatch(xs[i].c.req, xs[i].e)).0 == FAULT
    {
      hide HasLived, MaskOk, Armed, ConnectionRun.Dispatch, Sound, Spares, Fails, PeerIsGone;
      GoneFails(xs);
      crashed := HandleAll(xs);
      if crashed {
        return;
      }
      Registered();
      Prune();
      Registered();
    }
  }

  lemma SizeIsCount(heap: Heap)
    requires heap.Linked()
    ensures |heap.conns| == heap.size
  {
    PrefixCount(heap.slots[..heap.size], heap.conns);
  }

  /** Distinct entries, and all of them: as many as there are. */
  lemma {:induction false} PrefixCount(s: seq<Connection?>, conns: set<Connection>)
    requires forall c | c in conns :: c in s
    requires forall i | 0 <= i < |s| :: s[i] != null && s[i] in conns
    requires forall i, j | 0 <= i < j < |s| :: s[i] != s[j]
    ensures |conns| == |s|
  {
    if s != [] {
      var last := s[|s| - 1];
      PrefixCount(s[..|s| - 1], conns - {last});
    } else {
      assert conns == {};
    }
  }

  lemma {:induction false} HeldIsBounded(held: set<int>, n: nat)
    requires forall b | b in held :: 0 <= b < n
    ensures |held| <= n
  {
    if n > 0 {
      HeldIsBounded(held - {n - 1}, n - 1);
      assert held - {n - 1} == held || |held - {n - 1}| == |held| - 1;
    } else {
      assert forall b :: b !in held;
    }
  }
}
