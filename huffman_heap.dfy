// The array min-heap of problem_5/problem_5_demo.c: Huffman tree nodes kept in
// `nodes[0..size)`, ordered on `freq`, with sift-down (`minHeapify`), bottom-up
// construction (`buildMinHeap`), `extractMin` and sift-up `insertHeap`.

module HuffmanHeap {

  /** MAX_CHAR: the capacity of the heap array and the size of the character tables. */
  const MaxChar := 128

  /**
   * `MinHeapNode`: a leaf carries a character and its count; an inner node made
   * by `buildHuffmanTree` carries '$', the sum of its children's counts and the
   * two children. `freq` is an `unsigned` in the C code, so it lies in
   * [0, UintRange) wherever the code stores one.
   */
  datatype Node =
    | Leaf(data: char, freq: int)
    | Internal(data: char, freq: int, left: Node, right: Node)

  /** The number of values of a 32-bit `unsigned`. */
  const UintRange := 0x1_0000_0000

  /**
   * C's conversion of an `int` to `unsigned`, and its wrapping `unsigned`
   * addition: the value modulo 2^32. Values already in range are kept, and a
   * negative `int` of at most 32 bits becomes itself plus 2^32.
   */
  function Unsigned(x: int): (r: int)
    ensures 0 <= r < UintRange
    ensures 0 <= x < UintRange ==> r == x
    ensures -UintRange <= x < 0 ==> r == x + UintRange
  {
    x % UintRange
  }

  /** The parent slot of slot j > 0, `(j - 1) / 2`. */
  function Parent(j: int): (p: int)
    requires j > 0
    ensures 0 <= p < j && (j == 2 * p + 1 || j == 2 * p + 2)
  {
    (j - 1) / 2
  }

  /** C's `/`, which truncates toward zero: (size - 2) / 2 is 0, not -1, for size 1. */
  function CDiv(a: int, b: int): (q: int)
    requires b > 0
    ensures a >= 0 ==> q == a / b
    ensures a < 0 ==> q == -((-a) / b)
  {
    if a >= 0 then a / b else -((-a) / b)
  }

  /**
   * Every slot j whose parent lies at or after lo, and is not skip, holds a
   * count no smaller than its parent's.
   */
  ghost predicate Ordered(s: seq<Node>, lo: int, skip: int) {
    forall j :: 0 < j < |s| && lo <= Parent(j) && Parent(j) != skip ==> s[Parent(j)].freq <= s[j].freq
  }

  /** The min-heap property on freq. */
  ghost predicate IsHeap(s: seq<Node>) {
    Ordered(s, 0, -1)
  }

  /** The children of slot i are no smaller than i's parent (when that parent counts). */
  ghost predicate Bridged(s: seq<Node>, lo: int, i: int) {
    0 < i < |s| && lo <= Parent(i) ==>
      forall c :: 0 < c < |s| && Parent(c) == i ==> s[Parent(i)].freq <= s[c].freq
  }

  /** The root of a heap holds a least count. */
  lemma HeapRootMin(s: seq<Node>)
    requires IsHeap(s) && |s| > 0
    ensures forall j :: 0 <= j < |s| ==> s[0].freq <= s[j].freq
  {
    forall j | 0 <= j < |s|
      ensures s[0].freq <= s[j].freq
    {
      RootBelow(s, j);
    }
  }

  lemma {:induction false} RootBelow(s: seq<Node>, j: int)
    requires IsHeap(s) && 0 <= j < |s|
    ensures s[0].freq <= s[j].freq
    decreases j
  {
    if j > 0 {
      RootBelow(s, Parent(j));
    }
  }

  /** `MinHeap`: `size` and the node array. */
  class MinHeap {
    var size: int
    const nodes: array<Node>

    ghost predicate Valid()
      reads this
    {
      nodes.Length == MaxChar && 0 <= size <= MaxChar
    }

    /** The heap's nodes, `nodes[0..size)`. */
    ghost function Contents(): (s: seq<Node>)
      requires Valid()
      reads this, nodes
      ensures |s| == size
    {
      nodes[..size]
    }

    /** The allocation in `buildMinHeap`: an empty heap. */
    constructor ()
      ensures Valid() && size == 0 && fresh(nodes)
    {
      size := 0;
      nodes := new Node[MaxChar](_ => Leaf('$', 0));
    }

    /**
     * `minHeapify(heap, i)`: sift the node at i down, swapping it with its
     * smaller child until neither child is smaller. If the heap property holds
     * from lo on everywhere except below i, it then holds from lo on; the nodes
     * are only permuted.
     */
    method MinHeapify(i: int, ghost lo: int)
      requires Valid() && 0 <= lo <= i
      requires Ordered(Contents(), lo, i) && Bridged(Contents(), lo, i)
      modifies nodes
      ensures Ordered(Contents(), lo, -1)
      ensures multiset(Contents()) == old(multiset(Contents()))
      decreases size - i
    {
      var smallest := Smallest(i);
      ghost var s := nodes[..size];
      if smallest != i {
        SwapNodes(i, smallest);
        SwapDown(s, nodes[..size], lo, i, smallest);
        MinHeapify(smallest, lo);
      } else {
        InPlace(s, lo, i);
      }
    }

    /** The comparisons of `minHeapify`: slot i or whichever child holds a smaller count. */
    method Smallest(i: int) returns (smallest: int)
      requires Valid() && 0 <= i
      ensures smallest == i || (i < smallest < size && Parent(smallest) == i)
      ensures smallest != i ==> nodes[smallest].freq < nodes[i].freq
      ensures smallest == i ==> forall k :: 0 < k < size && Parent(k) == i ==> nodes[i].freq <= nodes[k].freq
      ensures smallest != i ==> forall k :: 0 < k < size && Parent(k) == i ==> nodes[smallest].freq <= nodes[k].freq
    {
      smallest := i;
      var l := 2 * i + 1;
      var r := 2 * i + 2;
      if l < size && nodes[l].freq < nodes[smallest].freq {
        smallest := l;
      }
      if r < size && nodes[r].freq < nodes[smallest].freq {
        smallest := r;
      }
    }

    /** `swapNode`: exchange two slots of the heap. */
    method SwapNodes(i: int, j: int)
      requires Valid() && 0 <= i < size && 0 <= j < size
      modifies nodes
      ensures nodes[..size] == old(nodes[..size])[i := old(nodes[j])][j := old(nodes[i])]
    {
      nodes[i], nodes[j] := nodes[j], nodes[i];
    }

    /** `extractMin`: take the root, move the last node to the root and sift it down. */
    method ExtractMin() returns (min: Node)
      requires Valid() && IsHeap(Contents()) && size >= 1
      modifies this, nodes
      ensures Valid() && size == old(size) - 1 && IsHeap(Contents())
      ensures multiset(Contents()) + multiset{min} == old(multiset(Contents()))
      ensures forall x :: x in old(Contents()) ==> min.freq <= x.freq
    {
      ghost var s := Contents();
      HeapRootMin(s);
      min := nodes[0];
      size := size - 1;
      nodes[0] := nodes[size];
      assert nodes[..size] == s[0 := s[size]][..size];
      RootReplaced(s);
      MinHeapify(0, 0);
    }

    /**
     * `insertHeap`: put the node in a new last slot and move it up past every
     * parent with a larger count.
     */
    method InsertHeap(node: Node)
      requires Valid() && IsHeap(Contents()) && size < MaxChar
      modifies this, nodes
      ensures Valid() && size == old(size) + 1 && IsHeap(Contents())
      ensures multiset(Contents()) == old(multiset(Contents())) + multiset{node}
    {
      ghost var s := Contents();
      var i := size;
      size := size + 1;
      nodes[i] := node;
      assert nodes[..size] == s + [node] == (s + [node])[i := node];
      SiftUpFrom(i, node, s + [node]);
    }

    /** The loop of `insertHeap`: node is bound for slot i, whose parents move down while larger. */
    method SiftUpFrom(i: int, node: Node, ghost a0: seq<Node>)
      requires Valid() && 0 <= i < size && nodes[..size] == a0 && SiftUp(a0[i := node], i)
      modifies nodes
      ensures IsHeap(Contents()) && multiset(Contents()) == multiset(a0[i := node])
    {
      var j := i;
      ghost var a := a0;
      while j > 0 && node.freq < nodes[Parent(j)].freq
        invariant 0 <= j < size && |a| == size && forall k :: 0 <= k < size ==> nodes[k] == a[k]
        invariant multiset(a[j := node]) == multiset(a0[i := node])
        invariant SiftUp(a[j := node], j)
        decreases j
      {
        nodes[j] := nodes[Parent(j)];
        MoveUp(a, j, node);
        a := a[j := a[Parent(j)]];
        j := Parent(j);
      }
      nodes[j] := node;
      assert nodes[..size] == a[j := node];
      SiftUpDone(a[j := node], j);
    }
  }

  /** The last node moved to the root: a heap except below the root, missing only the old root. */
  lemma RootReplaced(s: seq<Node>)
    requires IsHeap(s) && |s| >= 1
    ensures Ordered(s[0 := s[|s| - 1]][..|s| - 1], 0, 0)
    ensures multiset(s[0 := s[|s| - 1]][..|s| - 1]) + multiset{s[0]} == multiset(s)
  {
    var n := |s| - 1;
    var t := s[0 := s[n]][..n];
    forall j | 0 < j < |t| && Parent(j) != 0
      ensures t[Parent(j)].freq <= t[j].freq
    {
      assert t[j] == s[j] && t[Parent(j)] == s[Parent(j)];
    }
    if n > 0 {
      assert t == [s[n]] + s[1..n];
      assert s == [s[0]] + s[1..n] + [s[n]];
    } else {
      assert s == [s[0]];
    }
  }

  /** A node no larger than its children completes the heap property below lo. */
  lemma InPlace(s: seq<Node>, lo: int, i: int)
    requires 0 <= i && Ordered(s, lo, i)
    requires forall k :: 0 < k < |s| && Parent(k) == i ==> s[i].freq <= s[k].freq
    ensures Ordered(s, lo, -1)
  {
    forall j | 0 < j < |s| && lo <= Parent(j)
      ensures s[Parent(j)].freq <= s[j].freq
    {
    }
  }

  /**
   * After swapping slot i with its smaller child c: the heap property from lo
   * on holds everywhere except below c, and c's children are no smaller than i.
   */
  lemma SwapDown(s: seq<Node>, t: seq<Node>, lo: int, i: int, c: int)
    requires 0 <= lo <= i && 0 <= i < c < |s| && Parent(c) == i
    requires Ordered(s, lo, i) && Bridged(s, lo, i)
    requires s[c].freq < s[i].freq
    requires forall k :: 0 < k < |s| && Parent(k) == i ==> s[c].freq <= s[k].freq
    requires t == s[i := s[c]][c := s[i]]
    ensures Ordered(t, lo, c) && Bridged(t, lo, c)
    ensures multiset(t) == multiset(s)
  {
    forall j | 0 < j < |t| && lo <= Parent(j) && Parent(j) != c
      ensures t[Parent(j)].freq <= t[j].freq
    {
      var p := Parent(j);
      if j == c {
      } else if p == i {
      } else if j == i {
        assert Parent(i) != i && t[Parent(i)] == s[Parent(i)];
      } else {
        assert t[j] == s[j];
      }
    }
  }

  /**
   * The sift-up invariant for the node about to land in slot i (t holds it
   * there): every parent-child pair is ordered except possibly (Parent(i), i),
   * and i's children are no smaller than i's parent.
   */
  ghost predicate SiftUp(t: seq<Node>, i: int) {
    0 <= i < |t|
    && (forall j :: 0 < j < |t| && j != i ==> t[Parent(j)].freq <= t[j].freq)
    && (0 < i ==> forall c :: 0 < c < |t| && Parent(c) == i ==> t[Parent(i)].freq <= t[c].freq)
  }

  /** Moving the parent of i down into i carries the invariant to the parent. */
  lemma MoveUp(a: seq<Node>, i: int, node: Node)
    requires 0 < i < |a| && SiftUp(a[i := node], i) && node.freq < a[Parent(i)].freq
    ensures SiftUp(a[i := a[Parent(i)]][Parent(i) := node], Parent(i))
    ensures multiset(a[i := a[Parent(i)]][Parent(i) := node]) == multiset(a[i := node])
  {
    var p := Parent(i);
    var t := a[i := node];
    var t' := a[i := a[p]][p := node];
    assert t' == t[i := t[p]][p := t[i]];
    SwapPermutes(t, i, p);
    MoveUpOrder(t, t', i, p);
  }

  /** Exchanging two slots keeps the multiset of nodes. */
  lemma SwapPermutes(t: seq<Node>, x: int, y: int)
    requires 0 <= x < |t| && 0 <= y < |t|
    ensures multiset(t[x := t[y]][y := t[x]]) == multiset(t)
  {
  }

  lemma MoveUpOrder(t: seq<Node>, t': seq<Node>, i: int, p: int)
    requires 0 < i < |t| && p == Parent(i) && SiftUp(t, i) && t[i].freq < t[p].freq
    requires t' == t[i := t[p]][p := t[i]]
    ensures SiftUp(t', p)
  {
    forall j | 0 < j < |t'| && j != p
      ensures t'[Parent(j)].freq <= t'[j].freq
    {
      if j == i {
      } else if Parent(j) == p {
        assert t[p].freq <= t[j].freq;
      } else {
        assert t'[j] == t[j];
      }
    }
    if 0 < p {
      forall c | 0 < c < |t'| && Parent(c) == p
        ensures t'[Parent(p)].freq <= t'[c].freq
      {
        assert t'[Parent(p)] == t[Parent(p)];
        if c != i {
          assert t[p].freq <= t[c].freq;
        }
      }
    }
  }

  /** Where the loop stops, the last pair is ordered too. */
  lemma SiftUpDone(t: seq<Node>, i: int)
    requires SiftUp(t, i) && (i == 0 || t[Parent(i)].freq <= t[i].freq)
    ensures IsHeap(t)
  {
  }

  /**
   * The leaves `buildMinHeap` makes: node i gets data[i] and the `int` freq[i]
   * converted to `unsigned` by `newNode`.
   */
  function InputLeaves(data: seq<char>, freq: seq<int>, size: int): seq<Node>
    requires 0 <= size <= |data| && size <= |freq|
  {
    seq(size, i requires 0 <= i < size => Leaf(data[i], Unsigned(freq[i])))
  }

  /**
   * A negative count becomes a huge `unsigned` weight: with freq [-1, 1], the
   * leaf 'a' weighs 2^32 - 1, so every heap of the two leaves has 'b' at its
   * root.
   */
  lemma NegativeWeightHeavy(s: seq<Node>)
    requires IsHeap(s) && multiset(s) == multiset(InputLeaves("ab", [-1, 1], 2))
    ensures s[0] == Leaf('b', 1)
  {
    var leaves := InputLeaves("ab", [-1, 1], 2);
    assert leaves == [Leaf('a', UintRange - 1), Leaf('b', 1)];
    assert |s| == |multiset(s)| == 2;
    assert s[0] in multiset(s) && s[1] in multiset(s);
    HeapRootMin(s);
    assert s[0].freq <= s[1].freq;
  }

  /**
   * `buildMinHeap(data, freq, size)`: a leaf per position, then `minHeapify`
   * on every slot that has a child, from the last such slot down to the root.
   * The result is a heap of exactly those leaves.
   */
  method BuildMinHeap(data: seq<char>, freq: seq<int>, size: int) returns (heap: MinHeap)
    requires 0 <= size <= MaxChar && size <= |data| && size <= |freq|
    ensures fresh(heap) && fresh(heap.nodes) && heap.Valid() && heap.size == size
    ensures IsHeap(heap.Contents())
    ensures multiset(heap.Contents()) == multiset(InputLeaves(data, freq, size))
  {
    heap := new MinHeap();
    heap.size := size;
    for i := 0 to size
      invariant heap.Valid() && heap.size == size
      invariant heap.nodes[..i] == InputLeaves(data, freq, size)[..i]
    {
      heap.nodes[i] := Leaf(data[i], Unsigned(freq[i]));
    }
    assert heap.Contents() == InputLeaves(data, freq, size);
    var i := CDiv(size - 2, 2);
    LastInner(size);
    while i >= 0
      invariant -1 <= i && heap.Valid() && heap.size == size
      invariant Ordered(heap.Contents(), i + 1, -1)
      invariant multiset(heap.Contents()) == multiset(InputLeaves(data, freq, size))
      decreases i
    {
      heap.MinHeapify(i, i);
      i := i - 1;
    }
  }

  /** No slot after the first slot `buildMinHeap` sifts has a child. */
  lemma LastInner(size: int)
    requires size >= 0
    ensures CDiv(size - 2, 2) >= -1
    ensures forall j :: 0 < j < size ==> Parent(j) <= CDiv(size - 2, 2)
  {
  }
}
