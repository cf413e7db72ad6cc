// Min-heap order on the sequence of keys of an array heap: what a swap along a path does to it.
module HeapOrder {

  function Pow2(n: nat): nat {
    if n == 0 then 1 else 2 * Pow2(n - 1)
  }

  /** PARENT: an arithmetic shift, so the parent of 0 is -1. */
  function Parent(x: int): int { (x - 1) / 2 }

  function LChild(x: int): int { 2 * x + 1 }

  function RChild(x: int): int { LChild(x) + 1 }

  /** The slots are the tree in level order: each but the root is one of the two children of its parent. */
  lemma TreeInLevelOrder(x: int)
    requires 0 <= x
    ensures LChild(0) == 1 && RChild(x) == LChild(x) + 1 && LChild(x + 1) == RChild(x) + 1
    ensures Parent(LChild(x)) == Parent(RChild(x)) == x
    ensures 0 < x ==> 0 <= Parent(x) < x && (x == LChild(Parent(x)) || x == RChild(Parent(x)))
  {
  }

  /** Slot i is not smaller than its parent. */
  predicate AboveParent(s: seq<int>, i: int)
    requires 0 < i < |s|
  {
    s[Parent(i)] <= s[i]
  }

  predicate Ordered(s: seq<int>) {
    forall i | 0 < i < |s| :: AboveParent(s, i)
  }

  /** Ordered but for slot idx against its parent; what lies below idx is not smaller than that parent. */
  predicate OrderedButUp(s: seq<int>, idx: int) {
    && (forall i | 0 < i < |s| && i != idx :: AboveParent(s, i))
    && (forall i | 0 < i < |s| && Parent(i) == idx && 0 < idx :: s[Parent(idx)] <= s[i])
  }

  /** Ordered but for slot idx against its children; they are not smaller than the parent of idx. */
  predicate OrderedButDown(s: seq<int>, idx: int) {
    && (forall i | 0 < i < |s| && Parent(i) != idx :: AboveParent(s, i))
    && (forall i | 0 < i < |s| && Parent(i) == idx && 0 < idx < |s| :: s[Parent(idx)] <= s[i])
  }

  function Swapped(s: seq<int>, x: nat, y: nat): seq<int>
    requires x < |s| && y < |s|
  {
    s[x := s[y]][y := s[x]]
  }

  /** The two slots below idx. */
  lemma Children(i: int, idx: int)
    requires 0 < i && 0 <= idx
    ensures Parent(i) == idx <==> i == LChild(idx) || i == RChild(idx)
    ensures 0 <= Parent(i) < i
  {
  }

  /** A swap with a larger parent moves the one disorder up. */
  lemma SwapUp(s: seq<int>, idx: nat)
    requires 0 < idx < |s| && OrderedButUp(s, idx) && s[idx] < s[Parent(idx)]
    ensures OrderedButUp(Swapped(s, idx, Parent(idx)), Parent(idx))
  {
    var f := Parent(idx);
    var t := Swapped(s, idx, f);
    forall i | 0 < i < |t| && i != f
      ensures AboveParent(t, i)
    {
      if i != idx {
        assert AboveParent(s, i);
      }
    }
    forall i | 0 < i < |t| && Parent(i) == f && 0 < f
      ensures t[Parent(f)] <= t[i]
    {
      assert AboveParent(s, f);
      if i != idx {
        assert AboveParent(s, i);
      }
    }
  }

  /** A swap with the smaller child moves the one disorder down. */
  lemma SwapDown(s: seq<int>, idx: nat, c: nat)
    requires idx < |s| && 0 < c < |s| && Parent(c) == idx && OrderedButDown(s, idx) && s[c] < s[idx]
    requires forall i | 0 < i < |s| && Parent(i) == idx :: s[c] <= s[i]
    ensures OrderedButDown(Swapped(s, idx, c), c)
  {
    var t := Swapped(s, idx, c);
    forall i | 0 < i < |t| && Parent(i) != c
      ensures AboveParent(t, i)
    {
      if i != idx && Parent(i) != idx {
        assert AboveParent(s, i);
      }
    }
    forall i | 0 < i < |t| && Parent(i) == c
      ensures t[Parent(c)] <= t[i]
    {
      assert AboveParent(s, i);
    }
  }

  /** The root of an ordered heap is a smallest key. */
  lemma {:induction false} RootIsLeast(s: seq<int>, i: nat)
    requires Ordered(s) && i < |s|
    ensures s[0] <= s[i]
    decreases i
  {
    if i > 0 {
      assert AboveParent(s, i);
      RootIsLeast(s, Parent(i));
    }
  }

  /** A smaller key at idx disturbs the order upwards only. */
  lemma Decreased(s: seq<int>, idx: nat, key: int)
    requires Ordered(s) && idx < |s| && key <= s[idx]
    ensures OrderedButUp(s[idx := key], idx)
  {
    var t := s[idx := key];
    forall i | 0 < i < |t| && i != idx
      ensures AboveParent(t, i)
    {
      assert AboveParent(s, i);
    }
    forall i | 0 < i < |t| && Parent(i) == idx && 0 < idx
      ensures t[Parent(idx)] <= t[i]
    {
      assert AboveParent(s, i) && AboveParent(s, idx);
    }
  }

  /** A key at idx that is not smaller than the parent of idx disturbs the order downwards only. */
  lemma Replaced(s: seq<int>, idx: nat, key: int)
    requires Ordered(s) && idx < |s| && (idx == 0 || s[Parent(idx)] <= key)
    ensures OrderedButDown(s[idx := key], idx)
  {
    var t := s[idx := key];
    forall i | 0 < i < |t| && Parent(i) != idx
      ensures AboveParent(t, i)
    {
      if i != idx { assert AboveParent(s, i); }
    }
    forall i | 0 < i < |t| && Parent(i) == idx && 0 < idx
      ensures t[Parent(idx)] <= t[i]
    {
      assert AboveParent(s, i) && AboveParent(s, idx);
    }
  }

  /** What removing slot i does to the keys: the last key takes its place. */
  function Removed(s: seq<int>, i: nat): seq<int>
    requires i < |s|
  {
    s[i := s[|s| - 1]][..|s| - 1]
  }

  /** Removing slot i keeps the order: at the root, at the end, or when the last key is not below the parent of i. */
  predicate RemovalKeepsOrder(s: seq<int>, i: nat)
    requires i < |s|
  {
    i == 0 || i == |s| - 1 || s[Parent(i)] <= s[|s| - 1]
  }

  /** After the removal a bubble-down can repair the order exactly in those cases; in all others it does nothing. */
  lemma RemovalIsRepairable(s: seq<int>, i: nat)
    requires Ordered(s) && i < |s|
    ensures RemovalKeepsOrder(s, i) ==> OrderedButDown(Removed(s, i), i)
    ensures !RemovalKeepsOrder(s, i) ==> AtRest(Removed(s, i), i) && !Ordered(Removed(s, i))
  {
    var last := |s| - 1;
    Shortened(s);
    if i == last {
      assert Removed(s, i) == s[..last];
      forall j | 0 < j < last
        ensures AboveParent(s[..last], j)
      {
      }
    } else {
      assert Removed(s, i) == s[..last][i := s[last]];
      if RemovalKeepsOrder(s, i) {
        Replaced(s[..last], i, s[last]);
      } else {
        SmallReplacementBreaksOrder(s[..last], i, s[last]);
      }
    }
  }

  lemma Appended(s: seq<int>, key: int)
    requires Ordered(s)
    ensures OrderedButUp(s + [key], |s|)
  {
    var t := s + [key];
    forall i | 0 < i < |t| && i != |s|
      ensures AboveParent(t, i)
    {
      assert AboveParent(s, i);
    }
  }

  lemma Shortened(s: seq<int>)
    requires |s| > 0 && Ordered(s)
    ensures Ordered(s[..|s| - 1])
  {
    var t := s[..|s| - 1];
    forall i | 0 < i < |t|
      ensures AboveParent(t, i)
    {
      assert AboveParent(s, i);
    }
  }

  /**
   * A key below its parent, with children above the parent, stays where it is when it is bubbled down: the order is
   * lost.
   */
  lemma SmallReplacementBreaksOrder(s: seq<int>, idx: nat, key: int)
    requires Ordered(s) && 0 < idx < |s| && key < s[Parent(idx)]
    ensures !Ordered(s[idx := key])
    ensures forall i | 0 < i < |s| && Parent(i) == idx :: key < s[idx := key][i]
  {
    assert !AboveParent(s[idx := key], idx);
    forall i | 0 < i < |s| && Parent(i) == idx
      ensures key < s[idx := key][i]
    {
      assert AboveParent(s, i) && AboveParent(s, idx);
    }
  }

  lemma OrderedAtTop(s: seq<int>, idx: nat)
    requires idx < |s| && OrderedButUp(s, idx) && (0 < idx ==> AboveParent(s, idx))
    ensures Ordered(s)
  {
  }

  /** Slot idx is not above any of its children, if it is in the heap at all. */
  predicate AtRest(s: seq<int>, idx: int) {
    forall i | 0 < i < |s| && Parent(i) == idx && 0 <= idx < |s| :: s[idx] <= s[i]
  }

  lemma OrderedAtBottom(s: seq<int>, idx: nat)
    requires AtRest(s, idx)
    ensures OrderedButDown(s, idx) ==> Ordered(s)
  {
  }

  lemma ChildlessAtRest(s: seq<int>, idx: nat)
    requires LChild(idx) >= |s|
    ensures AtRest(s, idx)
  {
    forall i | 0 < i < |s| && Parent(i) == idx
      ensures false
    {
      Children(i, idx);
    }
  }

  /** The child chosen is a smallest one. */
  lemma LeastChild(s: seq<int>, idx: nat, c: nat)
    requires idx < |s| && c < |s| && (c == LChild(idx) || c == RChild(idx))
    requires LChild(idx) < |s| ==> s[c] <= s[LChild(idx)]
    requires RChild(idx) < |s| ==> s[c] <= s[RChild(idx)]
    ensures Parent(c) == idx && forall i | 0 < i < |s| && Parent(i) == idx :: s[c] <= s[i]
  {
    forall i | 0 < i < |s| && Parent(i) == idx
      ensures s[c] <= s[i]
    {
      Children(i, idx);
    }
  }

  /** The smaller child decides: either idx is at rest, or swapping with that child moves the disorder down. */
  lemma Choice(s: seq<int>, idx: nat, c: nat)
    requires idx < |s| && c < |s| && (c == LChild(idx) || c == RChild(idx))
    requires LChild(idx) < |s| ==> s[c] <= s[LChild(idx)]
    requires RChild(idx) < |s| ==> s[c] <= s[RChild(idx)]
    ensures AtRest(s, idx) <==> s[idx] <= s[c]
    ensures OrderedButDown(s, idx) && s[c] < s[idx] ==> OrderedButDown(Swapped(s, idx, c), c)
  {
    LeastChild(s, idx, c);
    if OrderedButDown(s, idx) && s[c] < s[idx] {
      SwapDown(s, idx, c);
    }
  }

  // ---------- the length of a path ----------

  /** k steps up from `start` lead to idx. */
  predicate Climbed(start: nat, idx: nat, k: nat) {
    Pow2(k) * (idx + 1) <= start + 1
  }

  lemma ClimbNone(start: nat)
    ensures Climbed(start, start, 0)
  {
  }

  lemma ClimbOne(start: nat, idx: nat, k: nat)
    requires Climbed(start, idx, k) && idx > 0
    ensures Climbed(start, Parent(idx), k + 1)
  {
    assert Pow2(k) * (2 * (Parent(idx) + 1)) <= Pow2(k) * (idx + 1);
  }

  lemma ClimbBound(start: nat, idx: nat, k: nat)
    requires Climbed(start, idx, k)
    ensures Pow2(k) <= start + 1
  {
    assert Pow2(k) <= Pow2(k) * (idx + 1);
  }

  /** k steps down from `start` lead to idx or further. */
  predicate Descended(start: nat, idx: nat, k: nat) {
    (start + 1) * Pow2(k) <= idx + 1
  }

  lemma DescendNone(start: nat)
    ensures Descended(start, start, 0)
  {
  }

  lemma DescendedWithin(start: nat, idx: nat, last: nat, k: nat)
    requires Descended(start, idx, k) && idx <= last
    ensures Descended(start, last, k)
  {
  }

  lemma DescendOne(start: nat, idx: nat, child: nat, k: nat)
    requires Descended(start, idx, k) && (child == LChild(idx) || child == RChild(idx))
    ensures Descended(start, child, k + 1)
  {
    assert (start + 1) * (2 * Pow2(k)) == 2 * ((start + 1) * Pow2(k));
  }
}
