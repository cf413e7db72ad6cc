// The chained hash table of src/dict.c with the sdbm hash, and the string comparison of src/ssstr.c it uses.
module Dict {

  import opened Common

  // ---------- ssstr_hash_sdbm ----------

  const WORD: nat := 0x1_0000_0000
  const BUCKETS: nat := 256

  /** A byte as the platform's `char`, which may be signed. */
  function CharValue(c: char, signed: bool): int {
    if signed && c as int >= 128 then c as int - 256 else c as int
  }

  /** The number of the same eight bits, in the range of the char. */
  lemma CharIsTheByte(c: char, signed: bool)
    requires c as int < 256
    ensures var v := CharValue(c, signed);
            && (v - c as int) % 256 == 0
            && if signed then -128 <= v < 128 else 0 <= v < 256
  {
  }

  /** One round: `hash = (*str++) + (hash << 6) + (hash << 16) - hash` on an unsigned 32-bit word. */
  function HashStep(h: nat, c: char, signed: bool): nat {
    ((CharValue(c, signed) % WORD) + (h * 64) % WORD + (h * 65536) % WORD - h) % WORD
  }

  function Sdbm(key: string, signed: bool): (h: nat)
    ensures h < WORD
  {
    if key == "" then 0 else HashStep(Sdbm(key[..|key| - 1], signed), key[|key| - 1], signed)
  }

  /** `hash & 0x7FFFFFFF`, then `& DICT_MASK_SIZE`. */
  function Bucket(key: string, signed: bool): (b: nat)
    ensures b < BUCKETS
  {
    Sdbm(key, signed) % 0x8000_0000 % BUCKETS
  }

  /** The shifts are a multiplication by 65599. */
  lemma ShiftsMultiply(h: nat, c: char, signed: bool)
    ensures HashStep(h, c, signed) == (65599 * h + CharValue(c, signed)) % WORD
  {
    var v := CharValue(c, signed);
    var a, b, d := v / WORD, (h * 64) / WORD, (h * 65536) / WORD;
    assert v % WORD + (h * 64) % WORD + (h * 65536) % WORD - h == (65599 * h + v) - WORD * (a + b + d);
    Wraps(65599 * h + v, -(a + b + d), WORD);
  }

  lemma Wraps(x: int, k: int, m: nat)
    requires m > 0
    ensures (x + m * k) % m == x % m
  {
    var q := x / m;
    assert x + m * k == (q + k) * m + x % m;
    DivUnique(x + m * k, q + k, x % m, m);
  }

  lemma DivUnique(x: int, q: int, r: nat, m: nat)
    requires m > 0 && r < m && x == q * m + r
    ensures x % m == r
  {
    var d := x / m - q;
    assert d * m == r - x % m;
    MultipleIsFar(d, m);
  }

  lemma MultipleIsFar(d: int, m: nat)
    ensures d >= 1 ==> d * m >= m
    ensures d <= -1 ==> d * m + m <= 0
  {
    if d >= 1 {
      ProductIsNat(d - 1, m);
    } else if d <= -1 {
      ProductIsNat(-1 - d, m);
    }
  }

  lemma ProductIsNat(x: nat, y: nat)
    ensures x * y >= 0
  {
  }

  /** The bytes as a polynomial in 63. */
  function Polynomial(key: string): nat {
    if key == "" then 0 else 63 * Polynomial(key[..|key| - 1]) + key[|key| - 1] as int
  }

  lemma {:induction false} SdbmModuloBuckets(key: string, signed: bool)
    ensures Sdbm(key, signed) % BUCKETS == Polynomial(key) % BUCKETS
  {
    if key != "" {
      var rest, c := key[..|key| - 1], key[|key| - 1];
      SdbmModuloBuckets(rest, signed);
      var h, p, v := Sdbm(rest, signed), Polynomial(rest), CharValue(c, signed);
      ShiftsMultiply(h, c, signed);
      WordModulo(65599 * h + v);
      // 65599 is 63 modulo 256, the byte is its value modulo 256, and so is p of h
      var e := if v == c as int then 0 else -1;
      assert v == c as int + 256 * e;
      var d := h / 256 - p / 256;
      assert h == p + 256 * d;
      assert 65599 * h + v == (63 * p + c as int) + 256 * (63 * d + 256 * h + e);
      Wraps(63 * p + c as int, 63 * d + 256 * h + e, 256);
    }
  }

  lemma WordModulo(x: int)
    ensures x % WORD % BUCKETS == x % BUCKETS
  {
    Wraps(x % WORD, (x / WORD) * 0x100_0000, BUCKETS);
    assert x == x % WORD + BUCKETS * ((x / WORD) * 0x100_0000);
  }

  /** The bucket of a key is its base-63 polynomial modulo 256, whatever the sign of char. */
  lemma BucketIsPolynomial(key: string, signed: bool)
    ensures Bucket(key, signed) == Polynomial(key) % BUCKETS
  {
    var h := Sdbm(key, signed);
    SdbmModuloBuckets(key, signed);
    Wraps(h % 0x8000_0000, (h / 0x8000_0000) * 0x80_0000, BUCKETS);
    assert h == h % 0x8000_0000 + BUCKETS * ((h / 0x8000_0000) * 0x80_0000);
  }

  /** `ssstr_hash_sdbm` */
  method HashSdbm(key: string, signed: bool) returns (hash: nat)
    ensures hash == Sdbm(key, signed) % 0x8000_0000
  {
    hash := 0;
    var i := 0;
    while i != |key|
      invariant 0 <= i <= |key|
      invariant hash == Sdbm(key[..i], signed)
      decreases |key| - i
    {
      assert key[..i + 1][..i] == key[..i];
      hash := ((CharValue(key[i], signed) % WORD) + (hash * 64) % WORD + (hash * 65536) % WORD - hash) % WORD;
      i := i + 1;
    }
    assert key[..i] == key;
    hash := hash % 0x8000_0000;
  }

  // ---------- ssstr_cmp ----------

  /** l comes before r: at the first difference it has the smaller char, or it ends there. */
  ghost predicate Before(l: string, r: string, signed: bool) {
    exists k ::
      && 0 <= k <= |l| && k <= |r| && l[..k] == r[..k] && k < |r|
      && (k == |l| || CharValue(l[k], signed) < CharValue(r[k], signed))
  }

  lemma SamePrefix(l: string, r: string, k: nat)
    requires k <= |l| && k <= |r| && l[..k] == r[..k]
    ensures forall i | 0 <= i < k :: l[i] == r[i]
  {
    assert forall i | 0 <= i < k :: l[i] == l[..k][i] && r[i] == r[..k][i];
  }

  lemma BeforeIsAsymmetric(l: string, r: string, signed: bool)
    requires Before(l, r, signed)
    ensures !Before(r, l, signed) && l != r
  {
    var k :| 0 <= k <= |l| && k <= |r| && l[..k] == r[..k] && k < |r|
             && (k == |l| || CharValue(l[k], signed) < CharValue(r[k], signed));
    SamePrefix(l, r, k);
    forall j | 0 <= j <= |r| && j <= |l| && r[..j] == l[..j] && j < |l|
      ensures !(j == |r| || CharValue(r[j], signed) < CharValue(l[j], signed))
    {
      SamePrefix(l, r, j);
    }
  }

  /** `ssstr_cmp` of two strings of bytes that are not NULL. */
  method Cmp(l: string, r: string, signed: bool) returns (c: int)
    requires forall i | 0 <= i < |l| :: l[i] as int < 256
    requires forall i | 0 <= i < |r| :: r[i] as int < 256
    ensures c == 0 <==> l == r
    ensures c == -1 <==> Before(l, r, signed)
    ensures c == 1 <==> Before(r, l, signed)
    ensures c == -1 || c == 0 || c == 1
  {
    forall x, y | Before(x, y, signed)
      ensures !Before(y, x, signed) && x != y
    {
      BeforeIsAsymmetric(x, y, signed);
    }
    var minlen := if |l| > |r| then |r| else |l|;
    var i := 0;
    while i < minlen
      invariant 0 <= i <= minlen && l[..i] == r[..i]
    {
      if CharValue(l[i], signed) < CharValue(r[i], signed) {
        return -1;
      } else if CharValue(l[i], signed) > CharValue(r[i], signed) {
        return 1;
      }
      assert l[..i + 1] == l[..i] + [l[i]] && r[..i + 1] == r[..i] + [r[i]];
      i := i + 1;
    }
    assert |l| == minlen ==> l[..minlen] == l;
    assert |r| == minlen ==> r[..minlen] == r;
    return if |r| == |l| then 0 else if |l| < |r| then -1 else 1;
  }

  // ---------- the table ----------

  /** A bucket: the nodes are never changed once they are linked in, so a list of them is a value. */
  datatype Chain<V> = Nil | Node(key: string, val: V, next: Chain<V>)

  function Length<V>(p: Chain<V>): nat {
    if p.Nil? then 0 else 1 + Length(p.next)
  }

  /** The first node with an equal key. */
  function Find<V>(p: Chain<V>, key: string): Option<V> {
    if p.Nil? then None else if p.key == key then Some(p.val) else Find(p.next, key)
  }

  /** The chain of bucket b after these puts: the entries that hash to b, newest first. */
  ghost function ChainOf<V>(puts: seq<(string, V)>, b: nat, signed: bool): Chain<V> {
    if puts == [] then Nil
    else
      var (k, v) := puts[|puts| - 1];
      var rest := ChainOf(puts[..|puts| - 1], b, signed);
      if Bucket(k, signed) == b then Node(k, v, rest) else rest
  }

  /** Looking along the chain of the key's own bucket finds the last entry put under it. */
  lemma {:induction false} ChainFindsLastPut<V>(puts: seq<(string, V)>, key: string, signed: bool)
    ensures Find(ChainOf(puts, Bucket(key, signed), signed), key) == Lookup(puts, key)
  {
    if puts != [] {
      ChainFindsLastPut(puts[..|puts| - 1], key, signed);
    }
  }

  /** What is found under a key is the value of its last entry. */
  lemma {:induction false} LookupIsTheLast<V>(puts: seq<(string, V)>, key: string)
    ensures match Lookup(puts, key)
            case Some(v) => exists i | 0 <= i < |puts| ::
              puts[i] == (key, v) && forall j | i < j < |puts| :: puts[j].0 != key
            case None => forall j | 0 <= j < |puts| :: puts[j].0 != key
  {
    if puts != [] {
      LookupIsTheLast(puts[..|puts| - 1], key);
    }
  }

  /** The lengths of the chains of buckets [b, 256). */
  ghost function LengthsFrom<V>(puts: seq<(string, V)>, b: nat, signed: bool): nat
    requires b <= BUCKETS
    decreases BUCKETS - b
  {
    if b == BUCKETS then 0 else Length(ChainOf(puts, b, signed)) + LengthsFrom(puts, b + 1, signed)
  }

  lemma {:induction false} OneMorePut<V>(puts: seq<(string, V)>, b: nat, signed: bool)
    requires puts != [] && b <= BUCKETS
    ensures LengthsFrom(puts, b, signed)
         == LengthsFrom(puts[..|puts| - 1], b, signed) + if b <= Bucket(puts[|puts| - 1].0, signed) then 1 else 0
    decreases BUCKETS - b
  {
    if b < BUCKETS {
      OneMorePut(puts, b + 1, signed);
    }
  }

  /** Every put is in exactly one chain. */
  lemma {:induction false} ChainsHoldAllPuts<V>(puts: seq<(string, V)>, signed: bool)
    ensures LengthsFrom(puts, 0, signed) == |puts|
  {
    if puts == [] {
      NoPuts<V>(0, signed);
    } else {
      OneMorePut(puts, 0, signed);
      ChainsHoldAllPuts(puts[..|puts| - 1], signed);
    }
  }

  lemma {:induction false} NoPuts<V>(b: nat, signed: bool)
    requires b <= BUCKETS
    ensures LengthsFrom<V>([], b, signed) == 0
    decreases BUCKETS - b
  {
    if b < BUCKETS {
      NoPuts<V>(b + 1, signed);
    }
  }

  /** `dict_t` */
  class Dict<V> {
    const table: array<Chain<V>>
    const signed: bool
    var used: nat
    /** Every entry put so far, oldest first. */
    ghost var puts: seq<(string, V)>

    ghost predicate Valid()
      reads this, table
    {
      && table.Length == BUCKETS
      && used == |puts|
      && forall b | 0 <= b < BUCKETS :: table[b] == ChainOf(puts, b, signed)
    }

    /** `dict_init` */
    constructor (signed: bool)
      ensures Valid() && puts == [] && fresh(table)
    {
      table := new Chain<V>[BUCKETS](_ => Nil);
      this.signed := signed;
      used := 0;
      puts := [];
    }

    /** `dict_put`: a new node at the head of its bucket, whether or not the key is there already. */
    method Put(key: string, val: V)
      requires Valid()
      modifies this, table
      ensures Valid() && puts == old(puts) + [(key, val)]
    {
      var hash := HashSdbm(key, signed);
      hash := hash % BUCKETS;
      table[hash] := Node(key, val, table[hash]);
      used := used + 1;
      puts := puts + [(key, val)];
      assert puts[..|puts| - 1] == old(puts);
    }

    /** `dict_get`: the most recent value under an equal key, and whether there is one. */
    method Get(key: string) returns (val: Option<V>)
      requires Valid()
      ensures val == Lookup(puts, key)
    {
      var hash := HashSdbm(key, signed);
      hash := hash % BUCKETS;
      ChainFindsLastPut(puts, key, signed);
      var p := table[hash];
      while !p.Nil?
        invariant Find(p, key) == Lookup(puts, key)
        decreases p
      {
        if p.key == key {
          return Some(p.val);
        }
        p := p.next;
      }
      return None;
    }

    /** `dict_free`: frees the nodes bucket by bucket; the count of them ends at 0. */
    method Free()
      requires Valid()
      modifies this`used
      ensures used == 0
    {
      ChainsHoldAllPuts(puts, signed);
      var i := 0;
      while i < table.Length
        invariant 0 <= i <= BUCKETS
        invariant used == LengthsFrom(puts, i, signed)
      {
        var p := table[i];
        while !p.Nil?
          invariant used == Length(p) + LengthsFrom(puts, i + 1, signed)
          decreases p
        {
          used := used - 1;
          p := p.next;
        }
        i := i + 1;
      }
    }
  }
}
