// The growable buffer of src/buffer.c and what its growth costs.
module Buffer {

  const BUFSIZ: nat := 8192
  const BUFFER_LIMIT: nat := BUFSIZ * 250

  /** `buffer_t`: `len` bytes of content, room for `free` more, and one byte for the terminator. */
  class Buffer {
    const data: array<char>
    var len: nat
    var free: nat

    ghost predicate Valid()
      reads this
    {
      len + free + 1 == data.Length
    }

    ghost function Contents(): string
      requires Valid()
      reads this, data
    {
      data[..len]
    }

    ghost function Capacity(): nat
      reads this
    {
      len + free
    }

    /** `buffer_new` */
    constructor (initlen: nat)
      ensures Valid() && fresh(data)
      ensures Contents() == "" && free == initlen && data[0] == '\0'
    {
      data := new char[initlen + 1](_ => '\0');
      len := 0;
      free := initlen;
    }

    /** `buffer_clear`: the bytes stay where they are, but nothing of them is content any more. */
    method Clear()
      requires Valid()
      modifies this
      ensures Valid() && Contents() == "" && Capacity() == old(Capacity())
    {
      free := free + len;
      len := 0;
    }

    /**
     * `buffer_cat`: appends in place while there is room.  Otherwise the content moves to a larger block and the old
     * object must not be used any more; the capacity is as GrownCapacity says.
     */
    method Cat(bytes: string) returns (b: Buffer)
      requires Valid()
      modifies this, data
      ensures b.Valid() && b.Contents() == old(Contents()) + bytes && b.data[b.len] == '\0'
      ensures b.Capacity() == GrownCapacity(old(len), old(Capacity()), |bytes|)
      ensures b == this <==> |bytes| <= old(free)
      ensures b != this ==> fresh(b) && fresh(b.data)
    {
      if |bytes| <= free {
        forall i | 0 <= i < |bytes| {
          data[len + i] := bytes[i];
        }
        len := len + |bytes|;
        free := free - |bytes|;
        data[len] := '\0';
        return this;
      }
      var newLen := len + |bytes|;
      if newLen < BUFFER_LIMIT {
        newLen := newLen * 2;
      } else {
        newLen := newLen + BUFFER_LIMIT;
      }
      b := new Buffer(newLen);
      forall i | 0 <= i < len {
        b.data[i] := data[i];
      }
      forall i | 0 <= i < |bytes| {
        b.data[len + i] := bytes[i];
      }
      b.len := len + |bytes|;
      b.free := newLen - b.len;
      b.data[b.len] := '\0';
    }
  }

  /** The capacity after n bytes have been appended to `len` of them. */
  function GrownCapacity(len: nat, capacity: nat, n: nat): nat {
    if len + n <= capacity then capacity
    else if len + n < BUFFER_LIMIT then 2 * (len + n)
    else len + n + BUFFER_LIMIT
  }

  // ---------- the cost of growing ----------

  /** The books of a buffer: bytes that reallocations have moved, and reallocations on the additive branch. */
  datatype Books = Books(len: nat, capacity: nat, moved: nat, additive: nat)

  function Append(s: Books, n: nat): Books {
    var capacity := GrownCapacity(s.len, s.capacity, n);
    if s.len + n <= s.capacity then s.(len := s.len + n)
    else Books(s.len + n, capacity, s.moved + s.len, s.additive + if s.len + n < BUFFER_LIMIT then 0 else 1)
  }

  function AppendAll(s: Books, ns: seq<nat>): Books
    decreases |ns|
  {
    if ns == [] then s else AppendAll(Append(s, ns[0]), ns[1..])
  }

  function Sum(ns: seq<nat>): nat {
    if ns == [] then 0 else ns[0] + Sum(ns[1..])
  }

  /** The bytes moved so far are paid by the capacity, which is at most twice a length that was reached. */
  predicate MovesPaid(s: Books) {
    s.len <= s.capacity && (s.moved == 0 || (s.moved <= s.capacity <= 2 * s.len))
  }

  /** Each additive reallocation so far is paid by BUFFER_LIMIT bytes of content, and the next one is ahead. */
  predicate AdditivePaid(s: Books) {
    && s.len <= s.capacity
    && s.additive * BUFFER_LIMIT <= s.len
    && (s.additive > 0 ==> (s.additive + 1) * BUFFER_LIMIT <= s.capacity)
  }

  lemma {:induction false} MovesStayPaid(s: Books, ns: seq<nat>)
    requires MovesPaid(s) && s.len + Sum(ns) < BUFFER_LIMIT
    ensures MovesPaid(AppendAll(s, ns)) && AppendAll(s, ns).len == s.len + Sum(ns)
    decreases |ns|
  {
    if ns != [] {
      MovesStayPaid(Append(s, ns[0]), ns[1..]);
    }
  }

  lemma {:induction false} AdditiveStaysPaid(s: Books, ns: seq<nat>)
    requires AdditivePaid(s)
    ensures AdditivePaid(AppendAll(s, ns)) && AppendAll(s, ns).len == s.len + Sum(ns)
    decreases |ns|
  {
    if ns != [] {
      AdditiveStaysPaid(Append(s, ns[0]), ns[1..]);
    }
  }

  /** A new or cleared buffer. */
  function Empty(capacity: nat): Books {
    Books(0, capacity, 0, 0)
  }

  /** Below the limit all reallocations together move at most twice the bytes that were appended. */
  lemma GrowthIsAmortised(capacity: nat, ns: seq<nat>)
    requires Sum(ns) < BUFFER_LIMIT
    ensures AppendAll(Empty(capacity), ns).moved <= 2 * Sum(ns)
  {
    MovesStayPaid(Empty(capacity), ns);
  }

  /** In every run there are at most N / BUFFER_LIMIT reallocations on the additive branch. */
  lemma AdditiveIsRare(capacity: nat, ns: seq<nat>)
    ensures AppendAll(Empty(capacity), ns).additive * BUFFER_LIMIT <= Sum(ns)
  {
    AdditiveStaysPaid(Empty(capacity), ns);
  }
}
