// Code generation of problem_5/problem_5_demo.c (`generateCodes`): a walk down
// the Huffman tree writing '0' for a left step and '1' for a right step into a
// shared buffer, copying the buffer into the table row of each leaf reached.

module HuffmanCodes {
  import opened HuffmanHeap
  import opened HuffmanTree

  /** The number of steps on the longest path from t down to a leaf. */
  function Height(t: Node): nat {
    match t
    case Leaf(_, _) => 0
    case Internal(_, _, left, right) =>
      1 + (if Height(left) < Height(right) then Height(right) else Height(left))
  }

  /** Every leaf character indexes a row of a table with n rows. */
  ghost predicate Fits(t: Node, n: int) {
    forall x :: x in Leaves(t) ==> 0 <= x.data as int < n
  }

  /** The characters at the leaves of t. */
  ghost function Chars(t: Node): set<char> {
    set x | x in Leaves(t) :: x.data
  }

  /** No two leaves carry the same character, and no leaf occurs twice. */
  ghost predicate UniqueLeaves(t: Node) {
    var m := multiset(Leaves(t));
    (forall x :: x in m ==> m[x] == 1)
    && (forall x, y :: x in m && y in m && x.data == y.data ==> x == y)
  }

  /** Following the '0'/'1' steps of p from t's root ends at a leaf holding c. */
  ghost predicate LeafAt(t: Node, p: seq<char>, c: char) {
    match t
    case Leaf(d, _) => p == [] && d == c
    case Internal(_, _, left, right) =>
      |p| > 0
      && ((p[0] == '0' && LeafAt(left, p[1..], c)) || (p[0] == '1' && LeafAt(right, p[1..], c)))
  }

  /**
   * The code table `generateCodes(t, code, top, codes)` leaves behind, with
   * path the characters already in code[0..top): a leaf's row becomes the
   * path; an inner node does its left subtree with '0' appended and then its
   * right subtree with '1' appended. Rows of characters not in t are untouched.
   */
  function Assign(t: Node, path: seq<char>, table: seq<seq<char>>): (r: seq<seq<char>>)
    requires Fits(t, |table|)
    ensures |r| == |table|
    ensures forall c: char :: 0 <= c as int < |table| && c !in Chars(t) ==> r[c as int] == table[c as int]
  {
    match t
    case Leaf(c, _) => table[c as int := path]
    case Internal(_, _, left, right) =>
      CharsSplit(t);
      Assign(right, path + ['1'], Assign(left, path + ['0'], table))
  }

  lemma {:induction false} CharsSplit(t: Node)
    requires t.Internal?
    ensures Chars(t) == Chars(t.left) + Chars(t.right)
    ensures forall x :: x in Leaves(t) <==> x in Leaves(t.left) || x in Leaves(t.right)
  {
  }

  /**
   * `generateCodes(root, code, top, codes)`: writes the step into `code[top]`
   * and recurses one level deeper; at a leaf it terminates the buffer with NUL
   * and copies it into the leaf character's row. The table ends up as Assign
   * describes, and the caller's prefix `code[0..top)` survives the call.
   */
  method GenerateCodes(root: Node, code: array<char>, top: int, codes: array<seq<char>>)
    requires code.Length == MaxChar && codes.Length == MaxChar
    requires 0 <= top && top + Height(root) < MaxChar
    requires Fits(root, MaxChar)
    modifies code, codes
    ensures codes[..] == Assign(root, old(code[..top]), old(codes[..]))
    ensures code[..top] == old(code[..top])
    decreases root
  {
    match root
    case Leaf(c, _) =>
      code[top] := '\0';
      codes[c as int] := code[..top];
    case Internal(_, _, left, right) =>
      CharsSplit(root);
      ghost var prefix := code[..top];
      ghost var table := codes[..];
      code[top] := '0';
      assert code[..top + 1] == prefix + ['0'];
      GenerateCodes(left, code, top + 1, codes);
      ghost var mid := codes[..];
      code[top] := '1';
      assert code[..top + 1] == prefix + ['1'];
      GenerateCodes(right, code, top + 1, codes);
      assert code[..top] == code[..top + 1][..top];
  }

  /** The path to c: left when c is among the left leaves, otherwise right. */
  ghost function Code(t: Node, c: char): (p: seq<char>)
    requires c in Chars(t)
    ensures LeafAt(t, p, c)
  {
    match t
    case Leaf(_, _) => []
    case Internal(_, _, left, right) =>
      CharsSplit(t);
      if c in Chars(left) then
        var p := ['0'] + Code(left, c);
        assert p[1..] == Code(left, c);
        p
      else
        var p := ['1'] + Code(right, c);
        assert p[1..] == Code(right, c);
        p
  }

  /** The leaves of the two subtrees of a tree with unique leaves share no character. */
  lemma {:induction false} UniqueSplit(t: Node)
    requires t.Internal? && UniqueLeaves(t)
    ensures UniqueLeaves(t.left) && UniqueLeaves(t.right)
    ensures Chars(t.left) !! Chars(t.right)
  {
    var ml, mr := multiset(Leaves(t.left)), multiset(Leaves(t.right));
    var m := multiset(Leaves(t));
    assert m == ml + mr;
    forall x | x in ml
      ensures ml[x] == 1
    {
      assert m[x] == ml[x] + mr[x];
    }
    forall x | x in mr
      ensures mr[x] == 1
    {
      assert m[x] == ml[x] + mr[x];
    }
    assert forall x :: x in ml ==> x in m;
    assert forall x :: x in mr ==> x in m;
    forall x, y | x in ml && y in mr
      ensures x.data != y.data
    {
      assert m[x] == ml[x] + mr[x];
    }
  }

  /** Each leaf character's row holds the path prefix followed by the path to that leaf. */
  lemma {:induction false} AssignFinds(t: Node, pre: seq<char>, table: seq<seq<char>>, c: char)
    requires Fits(t, |table|) && UniqueLeaves(t) && c in Chars(t)
    ensures 0 <= c as int < |table|
    ensures Assign(t, pre, table)[c as int] == pre + Code(t, c)
  {
    match t
    case Leaf(_, _) =>
      assert pre + [] == pre;
    case Internal(_, _, left, right) =>
      CharsSplit(t);
      UniqueSplit(t);
      if c in Chars(left) {
        AssignFinds(left, pre + ['0'], table, c);
        LeftFound(t, pre, table, c);
      } else {
        AssignFinds(right, pre + ['1'], Assign(left, pre + ['0'], table), c);
        RightFound(t, pre, table, c);
      }
  }

  /** A character on the left keeps the row the left walk gave it. */
  lemma {:induction false} LeftFound(t: Node, pre: seq<char>, table: seq<seq<char>>, c: char)
    requires t.Internal? && Fits(t, |table|) && c in Chars(t.left) && c !in Chars(t.right)
    requires Fits(t.left, |table|) && Fits(t.right, |table|) && 0 <= c as int < |table|
    requires Assign(t.left, pre + ['0'], table)[c as int] == (pre + ['0']) + Code(t.left, c)
    ensures c in Chars(t) && Assign(t, pre, table)[c as int] == pre + Code(t, c)
  {
    CharsSplit(t);
    assert (pre + ['0']) + Code(t.left, c) == pre + (['0'] + Code(t.left, c));
  }

  /** A character on the right gets the row the right walk gives it. */
  lemma {:induction false} RightFound(t: Node, pre: seq<char>, table: seq<seq<char>>, c: char)
    requires t.Internal? && Fits(t, |table|) && c !in Chars(t.left) && c in Chars(t.right)
    requires Fits(t.left, |table|) && Fits(t.right, |table|) && 0 <= c as int < |table|
    requires Assign(t.right, pre + ['1'], Assign(t.left, pre + ['0'], table))[c as int]
      == (pre + ['1']) + Code(t.right, c)
    ensures c in Chars(t) && Assign(t, pre, table)[c as int] == pre + Code(t, c)
  {
    CharsSplit(t);
    assert (pre + ['1']) + Code(t.right, c) == pre + (['1'] + Code(t.right, c));
  }

  /** A path that ends at a leaf cannot be continued to another leaf: no code is a prefix of another. */
  lemma {:induction false} PrefixFree(t: Node, p1: seq<char>, c1: char, p2: seq<char>, c2: char)
    requires LeafAt(t, p1, c1) && LeafAt(t, p2, c2) && p1 <= p2
    ensures p1 == p2 && c1 == c2
  {
    match t
    case Leaf(_, _) =>
    case Internal(_, _, left, right) =>
      assert p1[0] == p2[0];
      assert p1[1..] <= p2[1..];
      if p1[0] == '0' {
        PrefixFree(left, p1[1..], c1, p2[1..], c2);
      } else {
        PrefixFree(right, p1[1..], c1, p2[1..], c2);
      }
      assert p1 == [p1[0]] + p1[1..] && p2 == [p2[0]] + p2[1..];
  }

  /**
   * The table `generateCodes(root, code, 0, codes)` fills: every leaf
   * character's row is its root path, and for two different leaf characters
   * neither row is a prefix of the other.
   */
  lemma {:induction false} CodesPrefixFree(t: Node, table: seq<seq<char>>, c1: char, c2: char)
    requires Fits(t, |table|) && UniqueLeaves(t)
    requires c1 in Chars(t) && c2 in Chars(t) && c1 != c2
    ensures 0 <= c1 as int < |table| && 0 <= c2 as int < |table|
    ensures LeafAt(t, Assign(t, [], table)[c1 as int], c1)
    ensures !(Assign(t, [], table)[c1 as int] <= Assign(t, [], table)[c2 as int])
  {
    AssignFinds(t, [], table, c1);
    AssignFinds(t, [], table, c2);
    assert [] + Code(t, c1) == Code(t, c1) && [] + Code(t, c2) == Code(t, c2);
    if Code(t, c1) <= Code(t, c2) {
      PrefixFree(t, Code(t, c1), c1, Code(t, c2), c2);
    }
  }
}
