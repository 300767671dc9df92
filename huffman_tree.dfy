// Huffman tree construction of problem_5/problem_5_demo.c (`buildHuffmanTree`):
// repeatedly take the two lightest trees out of the heap, join them under a
// '$' node weighing their sum, and put the join back, until one tree is left.

module HuffmanTree {
  import opened HuffmanHeap

  /** The leaves of t, left to right. */
  function Leaves(t: Node): (r: seq<Node>)
    ensures |r| >= 1 && forall x :: x in r ==> x.Leaf?
  {
    match t
    case Leaf(_, _) => [t]
    case Internal(_, _, left, right) => Leaves(left) + Leaves(right)
  }

  /**
   * Every weight is an `unsigned` value, and every internal node is a '$' node
   * whose freq is the `unsigned` sum of its children's, wrapping modulo 2^32.
   */
  ghost predicate Merged(t: Node) {
    match t
    case Leaf(_, f) => 0 <= f < UintRange
    case Internal(c, f, left, right) =>
      c == '$' && f == Unsigned(left.freq + right.freq) && Merged(left) && Merged(right)
  }

  /** The leaves of a forest, tree after tree. */
  function LeavesOf(s: seq<Node>): seq<Node> {
    if s == [] then [] else Leaves(s[0]) + LeavesOf(s[1..])
  }

  /** The total freq of a sequence of nodes. */
  function SumFreq(s: seq<Node>): int {
    if s == [] then 0 else s[0].freq + SumFreq(s[1..])
  }

  /** The sum of a sequence of counts. */
  function Sum(xs: seq<int>): int {
    if xs == [] then 0 else Sum(xs[..|xs| - 1]) + xs[|xs| - 1]
  }

  /** A merged tree weighs as much as its leaves together, modulo 2^32. */
  lemma {:induction false} LeafFreq(t: Node)
    requires Merged(t)
    ensures t.freq == Unsigned(SumFreq(Leaves(t)))
  {
    match t
    case Leaf(_, _) =>
      assert [t][1..] == [];
    case Internal(_, _, left, right) =>
      LeafFreq(left);
      LeafFreq(right);
      Concat(Leaves(left), Leaves(right));
      UnsignedAdd(SumFreq(Leaves(left)), SumFreq(Leaves(right)));
  }

  /** Wrapping addition agrees with adding first and wrapping once. */
  lemma UnsignedAdd(a: int, b: int)
    ensures Unsigned(Unsigned(a) + Unsigned(b)) == Unsigned(a + b)
  {
    var qa, qb := a / UintRange, b / UintRange;
    assert a == qa * UintRange + Unsigned(a);
    assert b == qb * UintRange + Unsigned(b);
    Shift(Unsigned(a) + Unsigned(b), qa + qb);
  }

  lemma Shift(x: int, k: int)
    ensures Unsigned(x + k * UintRange) == Unsigned(x)
  {
  }

  lemma {:induction false} Concat(u: seq<Node>, v: seq<Node>)
    ensures LeavesOf(u + v) == LeavesOf(u) + LeavesOf(v)
    ensures SumFreq(u + v) == SumFreq(u) + SumFreq(v)
  {
    if u == [] {
      assert u + v == v;
    } else {
      assert (u + v)[1..] == u[1..] + v;
      Concat(u[1..], v);
    }
  }

  lemma {:induction false} SplitAt(b: seq<Node>, k: int)
    requires 0 <= k < |b|
    ensures b == b[..k] + [b[k]] + b[k + 1..]
  {
  }

  lemma {:induction false} DropFirst(a: seq<Node>, b: seq<Node>, k: int)
    requires multiset(a) == multiset(b) && |a| > 0 && 0 <= k < |b| && b[k] == a[0]
    ensures multiset(a[1..]) == multiset(b[..k] + b[k + 1..])
  {
    var x, rest := a[0], b[..k] + b[k + 1..];
    SplitAt(b, k);
    assert a == [x] + a[1..];
    assert multiset(a) == multiset{x} + multiset(a[1..]);
    assert multiset(b) == multiset(b[..k]) + multiset{x} + multiset(b[k + 1..]);
    assert multiset(rest) == multiset(b[..k]) + multiset(b[k + 1..]);
    assert multiset(rest) + multiset{x} == multiset(b);
    assert multiset(a[1..]) + multiset{x} == multiset(a);
    assert multiset(a[1..]) == multiset(a) - multiset{x} == multiset(rest);
  }

  /** Taking out the tree at k takes out its leaves and its freq. */
  lemma {:induction false} RemoveAt(b: seq<Node>, k: int)
    requires 0 <= k < |b|
    ensures multiset(LeavesOf(b)) == multiset(Leaves(b[k])) + multiset(LeavesOf(b[..k] + b[k + 1..]))
    ensures SumFreq(b) == b[k].freq + SumFreq(b[..k] + b[k + 1..])
  {
    SplitAt(b, k);
    Concat(b[..k] + [b[k]], b[k + 1..]);
    Concat(b[..k], [b[k]]);
    Concat(b[..k], b[k + 1..]);
    One(b[k]);
  }

  /** Neither the leaves (as a bag) nor the total freq depend on the order of the trees. */
  lemma {:induction false} Reordered(a: seq<Node>, b: seq<Node>)
    requires multiset(a) == multiset(b)
    ensures multiset(LeavesOf(a)) == multiset(LeavesOf(b))
    ensures SumFreq(a) == SumFreq(b)
    decreases |a|
  {
    if a == [] {
      assert |b| == |multiset(b)| == 0;
    } else {
      var x := a[0];
      assert x in multiset(b);
      var k :| 0 <= k < |b| && b[k] == x;
      var rest := b[..k] + b[k + 1..];
      DropFirst(a, b, k);
      Reordered(a[1..], rest);
      RemoveAt(b, k);
    }
  }

  /** A sequence of leaves is its own list of leaves. */
  lemma {:induction false} LeavesOfLeaves(s: seq<Node>)
    requires forall x :: x in s ==> x.Leaf?
    ensures LeavesOf(s) == s
  {
    if s != [] {
      assert s[0] in s;
      LeavesOfLeaves(s[1..]);
    }
  }

  /** The input leaves weigh as much as the counts they were made from, modulo 2^32. */
  lemma {:induction false} InputWeight(data: seq<char>, freq: seq<int>, size: int)
    requires 0 <= size <= |data| && size <= |freq|
    ensures Unsigned(SumFreq(InputLeaves(data, freq, size))) == Unsigned(Sum(freq[..size]))
  {
    if size > 0 {
      var s := InputLeaves(data, freq, size);
      var p := InputLeaves(data, freq, size - 1);
      assert s == p + [s[size - 1]];
      Concat(p, [s[size - 1]]);
      assert SumFreq([s[size - 1]]) == Unsigned(freq[size - 1]);
      assert freq[..size][..size - 1] == freq[..size - 1];
      InputWeight(data, freq, size - 1);
      UnsignedAdd(SumFreq(p), Unsigned(freq[size - 1]));
      UnsignedAdd(Sum(freq[..size - 1]), freq[size - 1]);
    }
  }

  /** One round of `buildHuffmanTree` keeps every tree in the heap merged. */
  lemma {:induction false} JoinMerged(c: seq<Node>, c1: seq<Node>, c2: seq<Node>, c3: seq<Node>, left: Node, right: Node)
    requires multiset(c1) + multiset{left} == multiset(c)
    requires multiset(c2) + multiset{right} == multiset(c1)
    requires multiset(c3) == multiset(c2) + multiset{Internal('$', Unsigned(left.freq + right.freq), left, right)}
    requires forall x :: x in c ==> Merged(x)
    ensures forall x :: x in c3 ==> Merged(x)
  {
    var top := Internal('$', Unsigned(left.freq + right.freq), left, right);
    assert left in multiset(c) && right in multiset(c1) && right in multiset(c);
    assert left in c && right in c;
    forall x | x in c3
      ensures Merged(x)
    {
      assert x in multiset(c3);
      if x != top {
        assert x in multiset(c2) && x in multiset(c1) && x in multiset(c);
      }
    }
  }

  /** One round of `buildHuffmanTree` keeps the bag of leaves in the heap. */
  lemma {:induction false} JoinLeaves(c: seq<Node>, c2: seq<Node>, c3: seq<Node>, left: Node, right: Node)
    requires multiset(c2) + multiset{left, right} == multiset(c)
    requires multiset(c3) == multiset(c2) + multiset{Internal('$', Unsigned(left.freq + right.freq), left, right)}
    ensures multiset(LeavesOf(c3)) == multiset(LeavesOf(c))
  {
    var top := Internal('$', Unsigned(left.freq + right.freq), left, right);
    assert multiset(c2 + [top]) == multiset(c3);
    assert multiset(c2 + [left, right]) == multiset(c);
    Reordered(c3, c2 + [top]);
    Reordered(c, c2 + [left, right]);
    Concat(c2, [top]);
    Concat(c2, [left, right]);
    One(top);
    Pair(left, right);
  }

  lemma {:induction false} Pair(x: Node, y: Node)
    ensures LeavesOf([x, y]) == Leaves(x) + Leaves(y)
  {
    assert [x, y] == [x] + [y];
    Concat([x], [y]);
    One(x);
    One(y);
  }

  lemma {:induction false} One(x: Node)
    ensures LeavesOf([x]) == Leaves(x)
  {
    assert [x][1..] == [];
  }

  /** One round of `buildHuffmanTree`: the heap's trees stay merged and keep their leaves. */
  lemma {:induction false} JoinStep(c: seq<Node>, c1: seq<Node>, c2: seq<Node>, c3: seq<Node>, left: Node, right: Node)
    requires multiset(c1) + multiset{left} == multiset(c)
    requires multiset(c2) + multiset{right} == multiset(c1)
    requires multiset(c3) == multiset(c2) + multiset{Internal('$', Unsigned(left.freq + right.freq), left, right)}
    requires forall x :: x in c ==> Merged(x)
    ensures forall x :: x in c3 ==> Merged(x)
    ensures multiset(LeavesOf(c3)) == multiset(LeavesOf(c))
  {
    JoinMerged(c, c1, c2, c3, left, right);
    JoinLeaves(c, c2, c3, left, right);
  }

  /** The heap `buildMinHeap` returns: leaves only, so merged, with themselves as leaves. */
  lemma {:induction false} Start(c: seq<Node>, data: seq<char>, freq: seq<int>, size: int)
    requires 0 <= size <= |data| && size <= |freq|
    requires multiset(c) == multiset(InputLeaves(data, freq, size))
    ensures forall x :: x in c ==> Merged(x)
    ensures multiset(LeavesOf(c)) == multiset(InputLeaves(data, freq, size))
  {
    var s := InputLeaves(data, freq, size);
    forall x | x in c
      ensures Merged(x)
    {
      assert x in multiset(s);
    }
    LeavesOfLeaves(s);
    Reordered(c, s);
  }

  /** The last tree in the heap holds every input leaf and weighs their total. */
  lemma {:induction false} LastTree(c: seq<Node>, root: Node, data: seq<char>, freq: seq<int>, size: int)
    requires 0 <= size <= |data| && size <= |freq|
    requires |c| == 1 && multiset{root} == multiset(c)
    requires forall x :: x in c ==> Merged(x)
    requires multiset(LeavesOf(c)) == multiset(InputLeaves(data, freq, size))
    ensures Merged(root)
    ensures multiset(Leaves(root)) == multiset(InputLeaves(data, freq, size))
    ensures root.freq == Unsigned(Sum(freq[..size]))
  {
    assert c[0] in multiset(c);
    assert c == [root];
    assert LeavesOf(c) == Leaves(root);
    LeafFreq(root);
    Reordered(Leaves(root), InputLeaves(data, freq, size));
    InputWeight(data, freq, size);
  }

  /**
   * `buildHuffmanTree(data, freq, size)`: every round removes two trees and
   * inserts one, so the heap shrinks by one until a single tree remains. That
   * tree has exactly the input leaves, only merged internal nodes, and weighs
   * the sum of the input freqs, converted to `unsigned` as C does. The source
   * calls `extractMin` on an empty heap when size is 0, hence `1 <= size`.
   */
  method BuildHuffmanTree(data: seq<char>, freq: seq<int>, size: int) returns (root: Node)
    requires 1 <= size <= MaxChar && size <= |data| && size <= |freq|
    ensures Merged(root)
    ensures multiset(Leaves(root)) == multiset(InputLeaves(data, freq, size))
    ensures root.freq == Unsigned(Sum(freq[..size]))
    ensures 0 <= Sum(freq[..size]) < UintRange ==> root.freq == Sum(freq[..size])
  {
    var heap := BuildMinHeap(data, freq, size);
    Start(heap.Contents(), data, freq, size);
    while heap.size > 1
      invariant fresh(heap) && fresh(heap.nodes)
      invariant heap.Valid() && IsHeap(heap.Contents()) && 1 <= heap.size
      invariant forall x :: x in heap.Contents() ==> Merged(x)
      invariant multiset(LeavesOf(heap.Contents())) == multiset(InputLeaves(data, freq, size))
      decreases heap.size
    {
      ghost var c := heap.Contents();
      var left := heap.ExtractMin();
      ghost var c1 := heap.Contents();
      var right := heap.ExtractMin();
      ghost var c2 := heap.Contents();
      var top := Internal('$', Unsigned(left.freq + right.freq), left, right);
      heap.InsertHeap(top);
      JoinStep(c, c1, c2, heap.Contents(), left, right);
    }
    ghost var c := heap.Contents();
    root := heap.ExtractMin();
    LastTree(c, root, data, freq, size);
  }
}
