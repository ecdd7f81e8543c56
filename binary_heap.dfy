/** The 1-indexed, array-backed binary min-heap of src/binary_heap.rs. Slot 0 of `keys` and
    `aux` is a dummy, so the children of slot `i` are `2i` and `2i + 1`. The source is generic
    in the key and payload types; the only instantiation in the core (A*) is
    `Heap<usize, usize>`, so both are natural numbers here, and their defaults are 0. */
module BinaryHeap {
  import opened Collections

  /** Min-heap order over slots `1..=n`: no slot holds a smaller key than its parent. */
  predicate HeapOrdered(keys: seq<nat>, n: nat)
    requires n < |keys|
  {
    forall i :: 2 <= i <= n ==> keys[i / 2] <= keys[i]
  }

  /** Heap order everywhere except between `hole` and its parent, and `hole`'s parent
      still bounds `hole`'s children: what sift-up keeps. */
  predicate OrderedAbove(keys: seq<nat>, n: nat, hole: nat)
    requires n < |keys|
  {
    && (forall i :: 2 <= i <= n && i != hole ==> keys[i / 2] <= keys[i])
    && (forall c :: 2 <= c <= n && c / 2 == hole && hole >= 2 ==> keys[hole / 2] <= keys[c])
  }

  /** Heap order everywhere except between `hole` and its children, and `hole`'s parent
      still bounds `hole`'s children: what sift-down keeps. */
  predicate OrderedBelow(keys: seq<nat>, n: nat, hole: nat)
    requires n < |keys|
  {
    && (forall i :: 2 <= i <= n && i / 2 != hole ==> keys[i / 2] <= keys[i])
    && (forall c :: 2 <= c <= n && c / 2 == hole && hole >= 2 ==> keys[hole / 2] <= keys[c])
  }

  /** The key/payload pairs stored in slots `1..` of two parallel vectors. */
  function Pairs(keys: seq<nat>, aux: seq<nat>): (p: seq<(nat, nat)>)
    requires |keys| == |aux|
    ensures |p| == |keys|
    ensures forall i :: 0 <= i < |keys| ==> p[i] == (keys[i], aux[i])
  {
    seq(|keys|, i requires 0 <= i < |keys| => (keys[i], aux[i]))
  }

  /** The multiset of stored pairs, without the dummy slot. */
  ghost function Stored(keys: seq<nat>, aux: seq<nat>): multiset<(nat, nat)>
    requires 1 <= |keys| == |aux|
  {
    multiset(Pairs(keys, aux)[1..])
  }

  /** In a heap-ordered vector the key in slot 1 is at most every stored key. */
  lemma {:induction false} RootIsMinimum(keys: seq<nat>, n: nat, i: nat)
    requires n < |keys| && HeapOrdered(keys, n)
    requires 1 <= i <= n
    ensures keys[1] <= keys[i]
  {
    if i > 1 {
      RootIsMinimum(keys, n, i / 2);
    }
  }

  /** Swapping two stored slots in both vectors keeps the stored multiset. */
  lemma SwapKeepsStored(keys: seq<nat>, aux: seq<nat>, a: nat, b: nat)
    requires 1 <= |keys| == |aux| && 1 <= a < |keys| && 1 <= b < |keys|
    ensures Stored(Swap(keys, a, b), Swap(aux, a, b)) == Stored(keys, aux)
  {
    var p := Pairs(keys, aux)[1..];
    var q := Pairs(Swap(keys, a, b), Swap(aux, a, b))[1..];
    assert q == Swap(p, a - 1, b - 1);
  }

  /** Appending one slot to both vectors adds exactly that pair. */
  lemma PushAddsStored(keys: seq<nat>, aux: seq<nat>, k: nat, x: nat)
    requires 1 <= |keys| == |aux|
    ensures Stored(keys + [k], aux + [x]) == Stored(keys, aux) + multiset{(k, x)}
  {
    assert Pairs(keys + [k], aux + [x])[1..] == Pairs(keys, aux)[1..] + [(k, x)];
  }

  /** `swap_remove(1)` on both vectors removes exactly the pair in slot 1. */
  lemma SwapRemoveRootStored(keys: seq<nat>, aux: seq<nat>)
    requires 2 <= |keys| == |aux|
    ensures Stored(SwapRemove(keys, 1), SwapRemove(aux, 1)) == Stored(keys, aux) - multiset{(keys[1], aux[1])}
  {
    var p := Pairs(keys, aux);
    var m := |p|;
    var q := Pairs(SwapRemove(keys, 1), SwapRemove(aux, 1));
    assert q == SwapRemove(p, 1);
    if m == 2 {
      assert q[1..] == [];
      assert p[1..] == [p[1]];
    } else {
      assert q[1..] == [p[m - 1]] + p[2..m - 1];
      assert p[1..] == [p[1]] + p[2..m - 1] + [p[m - 1]];
    }
  }

  class Heap {
    var keys: seq<nat>
    var aux: seq<nat>
    var len: nat

    /** The representation invariant: one dummy slot holding the defaults, parallel vectors
        of `len + 1` slots, and min-heap order over the stored slots. */
    ghost predicate Valid()
      reads this
    {
      && |keys| == len + 1 && |aux| == len + 1
      && keys[0] == 0 && aux[0] == 0
      && HeapOrdered(keys, len)
    }

    /** The stored key/payload pairs. */
    ghost function Contents(): multiset<(nat, nat)>
      reads this
      requires Valid()
    {
      Stored(keys, aux)
    }

    /** `Heap::with_capacity`: only the dummy slot; the capacity is an allocation hint. */
    constructor WithCapacity(capacity: nat)
      ensures Valid()
      ensures len == 0 && keys == [0] && aux == [0]
      ensures Contents() == multiset{}
    {
      keys := [0];
      aux := [0];
      len := 0;
    }

    /** `Heap::min`: the pair in slot 1, whose key is at most every stored key. */
    method Min() returns (r: Option<(nat, nat)>)
      requires Valid()
      ensures r.None? <==> len == 0
      ensures r.Some? ==> r.value in Contents() && r.value == (keys[1], aux[1])
      ensures r.Some? ==> forall e :: e in Contents() ==> r.value.0 <= e.0
    {
      if len == 0 {
        r := None;
      } else {
        r := Some((keys[1], aux[1]));
        MinimumOfContents();
      }
    }

    /** Every stored pair has a key at least the key in slot 1. */
    lemma MinimumOfContents()
      requires Valid() && len > 0
      ensures (keys[1], aux[1]) in Contents()
      ensures forall e :: e in Contents() ==> keys[1] <= e.0
    {
      var p := Pairs(keys, aux)[1..];
      assert p[0] == (keys[1], aux[1]);
      forall e | e in Contents()
        ensures keys[1] <= e.0
      {
        var j :| 0 <= j < |p| && p[j] == e;
        RootIsMinimum(keys, len, j + 1);
      }
    }

    /** `Heap::swap`: exchanges two slots in both vectors, so a key never leaves its payload. */
    method Swap(a: nat, b: nat)
      requires a < |keys| && b < |keys| && |keys| == |aux|
      modifies this`keys, this`aux
      ensures keys == Collections.Swap(old(keys), a, b)
      ensures aux == Collections.Swap(old(aux), a, b)
      ensures forall j :: 0 <= j < |keys| ==> (keys[j], aux[j]) == (old(keys)[if j == a then b else if j == b then a else j], old(aux)[if j == a then b else if j == b then a else j])
    {
      keys := Collections.Swap(keys, a, b);
      aux := Collections.Swap(aux, a, b);
    }

    /** `Heap::ascend`: sift the key in slot `index` up towards the root. */
    method Ascend(index: nat)
      requires 1 <= index < |keys| == |aux|
      requires OrderedAbove(keys, |keys| - 1, index)
      modifies this`keys, this`aux
      ensures |keys| == |old(keys)| && |aux| == |old(aux)|
      ensures HeapOrdered(keys, |keys| - 1)
      ensures Stored(keys, aux) == old(Stored(keys, aux))
      ensures keys[0] == old(keys[0]) && aux[0] == old(aux[0])
    {
      var n := |keys| - 1;
      var index := index;
      var parent := index / 2;
      while parent > 0
        invariant 1 <= index <= n && parent == index / 2
        invariant |keys| == |aux| == n + 1
        invariant OrderedAbove(keys, n, index)
        invariant Stored(keys, aux) == old(Stored(keys, aux))
        invariant keys[0] == old(keys[0]) && aux[0] == old(aux[0])
        decreases index
      {
        if keys[index] < keys[parent] {
          SwapKeepsStored(keys, aux, index, parent);
          ghost var k := keys;
          Swap(index, parent);
          SiftUpStep(k, n, index);
        } else {
          break;
        }
        index := parent;
        parent := parent / 2;
      }
    }

    /** `Heap::descend`: sift the key in slot `index` down towards the leaves. */
    method Descend(index: nat)
      requires 1 <= index && 1 <= |keys| == |aux|
      requires OrderedBelow(keys, |keys| - 1, index)
      modifies this`keys, this`aux
      ensures |keys| == |old(keys)| && |aux| == |old(aux)|
      ensures HeapOrdered(keys, |keys| - 1)
      ensures Stored(keys, aux) == old(Stored(keys, aux))
      ensures keys[0] == old(keys[0]) && aux[0] == old(aux[0])
    {
      var n := |keys| - 1;
      var index := index;
      var leftChild := index * 2;
      var rightChild;
      var minChild;
      while leftChild < |keys|
        invariant 1 <= index && leftChild == index * 2
        invariant |keys| == |aux| == n + 1
        invariant OrderedBelow(keys, n, index)
        invariant Stored(keys, aux) == old(Stored(keys, aux))
        invariant keys[0] == old(keys[0]) && aux[0] == old(aux[0])
        decreases |keys| - index
      {
        rightChild := leftChild + 1;
        minChild := if rightChild < |keys| && keys[leftChild] > keys[rightChild] then rightChild else leftChild;
        if keys[index] <= keys[minChild] {
          SettledIsOrdered(keys, n, index, minChild);
          break;
        }
        SwapKeepsStored(keys, aux, index, minChild);
        ghost var k := keys;
        Swap(index, minChild);
        DescendStep(k, n, index, minChild);
        index := minChild;
        leftChild := index * 2;
      }
      if leftChild >= |keys| {
        LeafIsOrdered(keys, n, index);
      }
    }

    /** `Heap::insert`. */
    method Insert(key: nat, x: nat)
      requires Valid()
      modifies this
      ensures Valid()
      ensures len == old(len) + 1
      ensures Contents() == old(Contents()) + multiset{(key, x)}
    {
      var newIndex := |keys|;
      PushAddsStored(keys, aux, key, x);
      keys := keys + [key];
      aux := aux + [x];
      Ascend(newIndex);
      len := len + 1;
    }

    /** `Heap::extract_min`. */
    method ExtractMin() returns (r: Option<(nat, nat)>)
      requires Valid()
      modifies this
      ensures Valid()
      ensures old(len) == 0 ==> r.None? && keys == old(keys) && aux == old(aux) && len == old(len)
      ensures old(len) > 0 ==> r.Some? && len == old(len) - 1
      ensures r.Some? ==> r.value in old(Contents())
      ensures r.Some? ==> forall e :: e in old(Contents()) ==> r.value.0 <= e.0
      ensures r.Some? ==> Contents() == old(Contents()) - multiset{r.value}
    {
      if len == 0 {
        return None;
      }
      MinimumOfContents();
      r := Some((keys[1], aux[1]));
      SwapRemoveRootStored(keys, aux);
      ghost var k := keys;
      keys := SwapRemove(keys, 1);
      aux := SwapRemove(aux, 1);
      if |keys| > 1 {
        ExtractKeepsOrderBelow(k, len);
      }
      Descend(1);
      len := len - 1;
    }

    /** `Heap::is_empty`. */
    method IsEmpty() returns (b: bool)
      requires Valid()
      ensures b <==> len == 0
      ensures b <==> Contents() == multiset{}
    {
      b := len == 0;
      if !b {
        MinimumOfContents();
      }
    }

    /** `Heap::clear`: back to the dummy slot alone. */
    method Clear()
      requires Valid()
      modifies this
      ensures Valid()
      ensures len == 0 && keys == [0] && aux == [0]
      ensures Contents() == multiset{}
    {
      keys := keys[..1];
      aux := aux[..1];
      len := 0;
    }
  }

  /** One swap of sift-up moves the hole from `index` to its parent. */
  lemma SiftUpStep(k: seq<nat>, n: nat, index: nat)
    requires n < |k| && 2 <= index <= n
    requires OrderedAbove(k, n, index)
    requires k[index] < k[index / 2]
    ensures OrderedAbove(Swap(k, index, index / 2), n, index / 2)
  {
    var p := index / 2;
    var s := Swap(k, index, p);
    forall i | 2 <= i <= n && i != p
      ensures s[i / 2] <= s[i]
    {
      if i == index {
      } else if i / 2 == p {
        assert k[p] <= k[i];
      } else if i / 2 == index {
        assert k[p] <= k[i];
      } else {
        assert s[i / 2] == k[i / 2];
      }
    }
    forall c | 2 <= c <= n && c / 2 == p && p >= 2
      ensures s[p / 2] <= s[c]
    {
      assert k[p / 2] <= k[p];
      if c != index {
        assert k[p] <= k[c];
      }
    }
  }

  /** One swap of sift-down moves the hole from `index` to its smaller child. */
  lemma SiftDownStep(k: seq<nat>, n: nat, index: nat, m: nat)
    requires n < |k| && 1 <= index && 2 <= m <= n && m / 2 == index
    requires OrderedBelow(k, n, index)
    requires forall c :: 2 <= c <= n && c / 2 == index ==> k[m] <= k[c]
    requires k[m] < k[index]
    ensures OrderedBelow(Swap(k, index, m), n, m)
  {
    var s := Swap(k, index, m);
    forall i | 2 <= i <= n && i / 2 != m
      ensures s[i / 2] <= s[i]
    {
      if i == m {
      } else if i / 2 == index {
        assert k[m] <= k[i];
      } else if i == index {
        assert k[index / 2] <= k[m];
      } else {
        assert s[i / 2] == k[i / 2];
      }
    }
    forall c | 2 <= c <= n && c / 2 == m && m >= 2
      ensures s[m / 2] <= s[c]
    {
      assert k[m] <= k[c];
    }
  }

  /** The child `descend` compares the hole with: the smaller of its one or two children. */
  function MinChild(k: seq<nat>, n: nat, index: nat): nat {
    if 2 * index + 1 <= n && 2 * index + 1 < |k| && k[2 * index] > k[2 * index + 1] then 2 * index + 1 else 2 * index
  }

  /** One swap of `descend` moves the hole down to the smaller child. */
  lemma DescendStep(k: seq<nat>, n: nat, index: nat, m: nat)
    requires n < |k| && 1 <= index && 2 * index <= n && m == MinChild(k, n, index)
    requires OrderedBelow(k, n, index) && k[m] < k[index]
    ensures index < m <= n
    ensures OrderedBelow(Swap(k, index, m), n, m)
  {
    assert forall c :: 2 <= c <= n && c / 2 == index ==> c == 2 * index || c == 2 * index + 1;
    SiftDownStep(k, n, index, m);
  }

  /** A hole no larger than its smaller child closes the heap order. */
  lemma SettledIsOrdered(k: seq<nat>, n: nat, index: nat, m: nat)
    requires n < |k| && 1 <= index && 2 * index <= n && m == MinChild(k, n, index)
    requires OrderedBelow(k, n, index) && k[index] <= k[m]
    ensures HeapOrdered(k, n)
  {
    assert forall c :: 2 <= c <= n && c / 2 == index ==> c == 2 * index || c == 2 * index + 1;
  }

  /** A hole without children closes the heap order. */
  lemma LeafIsOrdered(k: seq<nat>, n: nat, index: nat)
    requires n < |k| && 1 <= index && 2 * index > n
    requires OrderedBelow(k, n, index)
    ensures HeapOrdered(k, n)
  {
  }

  /** After `swap_remove(1)` only slot 1 may be out of order with its children. */
  lemma ExtractKeepsOrderBelow(k: seq<nat>, n: nat)
    requires n < |k| && 2 <= n && HeapOrdered(k, n)
    ensures OrderedBelow(SwapRemove(k, 1), n - 1, 1)
  {
  }

  /** The source's `insertion_and_min` test: after 2, 1, 0 the minimum key is 0 and three
      pairs are stored; after `clear` and 0, 1, 2 the same holds. */
  method InsertionAndMin() returns (first: Option<(nat, nat)>, firstLen: nat, cleared: bool, second: Option<(nat, nat)>)
    ensures first == Some((0, 0)) && firstLen == 3 && cleared && second == Some((0, 0))
  {
    var heap := new Heap.WithCapacity(4);
    heap.Insert(2, 2);
    heap.Insert(1, 1);
    heap.Insert(0, 0);
    first := heap.Min();
    firstLen := heap.len;
    heap.Clear();
    cleared := heap.IsEmpty();
    heap.Insert(0, 0);
    heap.Insert(1, 1);
    heap.Insert(2, 2);
    second := heap.Min();
  }

  /** The source's `insertion_and_extract_min` test: after 2, 0, 1 the first extraction
      yields 0 and leaves two pairs, and three extractions empty the heap. */
  method InsertionAndExtractMin() returns (first: Option<(nat, nat)>, lenAfter: nat, empty: bool)
    ensures first == Some((0, 0)) && lenAfter == 2 && empty
  {
    var heap := new Heap.WithCapacity(4);
    heap.Insert(2, 2);
    heap.Insert(0, 0);
    heap.Insert(1, 1);
    first := heap.ExtractMin();
    lenAfter := heap.len;
    var _ := heap.ExtractMin();
    var _ := heap.ExtractMin();
    empty := heap.IsEmpty();
  }
}
