// The driver of problem_5/problem_5_demo.c: vowels in the input line become
// '*', every character is counted in a table indexed by character code, the
// characters with a nonzero count become the symbols, and the Huffman tree and
// code table are built from them.

module HuffmanMain {
  import opened HuffmanHeap
  import opened HuffmanTree
  import opened HuffmanCodes

  /** MAX_LEN: `fgets` reads at most MAX_LEN - 1 characters. */
  const MaxLen := 100

  /**
   * `isVowel`: exactly the five lowercase vowels. Uppercase letters and the
   * mask character '*' are not vowels, so masking is final.
   */
  function IsVowel(ch: char): (r: bool)
    ensures r <==> ch in {'a', 'e', 'i', 'o', 'u'}
    ensures 'A' <= ch <= 'Z' ==> !r
    ensures ch == '*' ==> !r
  {
    ch == 'a' || ch == 'e' || ch == 'i' || ch == 'o' || ch == 'u'
  }

  /** The line with every lowercase vowel replaced by '*'. */
  function Masked(s: seq<char>): (r: seq<char>)
    ensures |r| == |s|
  {
    seq(|s|, i requires 0 <= i < |s| => if IsVowel(s[i]) then '*' else s[i])
  }

  /** Masking leaves no vowel, changes nothing else, and a second masking changes nothing. */
  lemma {:induction false} MaskedSpec(s: seq<char>)
    ensures forall i :: 0 <= i < |s| ==> !IsVowel(Masked(s)[i])
    ensures forall i :: 0 <= i < |s| && !IsVowel(s[i]) ==> Masked(s)[i] == s[i]
    ensures Masked(Masked(s)) == Masked(s)
  {
  }

  /** The number of occurrences of c in s. */
  function Count(s: seq<char>, c: char): nat {
    if s == [] then 0 else Count(s[..|s| - 1], c) + (if s[|s| - 1] == c then 1 else 0)
  }

  /** The `freq` table: entry k counts the character with code k. */
  function Counts(s: seq<char>): (r: seq<int>)
    ensures |r| == MaxChar
  {
    seq(MaxChar, k requires 0 <= k < MaxChar => Count(s, k as char))
  }

  /** Every character of the line is below MAX_CHAR, so it indexes `freq`; none is the terminator. */
  ghost predicate Ascii(s: seq<char>) {
    forall i :: 0 <= i < |s| ==> 0 < s[i] as int < MaxChar
  }

  lemma {:induction false} CountsAppend(s: seq<char>, x: char)
    requires x as int < MaxChar
    ensures Counts(s + [x]) == Counts(s)[x as int := Counts(s)[x as int] + 1]
  {
    assert (s + [x])[..|s|] == s;
  }

  /** `freq[c]++` on one entry adds one to the total. */
  lemma {:induction false} SumIncrement(f: seq<int>, k: int)
    requires 0 <= k < |f|
    ensures Sum(f[k := f[k] + 1]) == Sum(f) + 1
    decreases |f|
  {
    var g := f[k := f[k] + 1];
    assert g[..|g| - 1] == if k < |f| - 1 then f[..|f| - 1][k := f[k] + 1] else f[..|f| - 1];
    if k < |f| - 1 {
      SumIncrement(f[..|f| - 1], k);
    }
  }

  lemma {:induction false} SumZeros(n: nat)
    ensures Sum(seq(n, _ => 0)) == 0
  {
    if n > 0 {
      assert seq(n, _ => 0)[..n - 1] == seq(n - 1, _ => 0);
      SumZeros(n - 1);
    }
  }

  /** The counts of an ASCII line add up to its length. */
  lemma {:induction false} CountsSum(s: seq<char>)
    requires Ascii(s)
    ensures Sum(Counts(s)) == |s|
  {
    if s == [] {
      assert Counts(s) == seq(MaxChar, _ => 0);
      SumZeros(MaxChar);
    } else {
      var t, x := s[..|s| - 1], s[|s| - 1];
      assert s == t + [x];
      CountsAppend(t, x);
      CountsSum(t);
      SumIncrement(Counts(t), x as int);
    }
  }

  /**
   * The loop at the head of `main`: each character is masked if it is a vowel
   * and then counted, so the table counts the masked line.
   */
  method MaskAndCount(str: array<char>) returns (freq: array<int>)
    requires Ascii(str[..])
    modifies str
    ensures fresh(freq) && freq.Length == MaxChar
    ensures str[..] == Masked(old(str[..]))
    ensures freq[..] == Counts(str[..])
  {
    freq := new int[MaxChar](_ => 0);
    ghost var s := str[..];
    assert freq[..] == Counts([]);
    for i := 0 to str.Length
      invariant forall k :: 0 <= k < i ==> str[k] == Masked(s)[k]
      invariant forall k :: i <= k < str.Length ==> str[k] == s[k]
      invariant freq[..] == Counts(str[..i])
    {
      assert str[i] == s[i];
      if IsVowel(str[i]) {
        str[i] := '*';
      }
      CountsAppend(str[..i], str[i]);
      assert str[..i + 1] == str[..i] + [str[i]];
      freq[str[i] as int] := freq[str[i] as int] + 1;
    }
    assert str[..] == str[..str.Length] == Masked(s);
  }

  /**
   * The characters below n with a nonzero count, in increasing code order,
   * each once: the `symbols` buffer after the loop has looked at codes 0..n-1.
   */
  function SymbolsUpTo(f: seq<int>, n: int): (r: seq<char>)
    requires 0 <= n <= |f| && n <= MaxChar
    ensures |r| <= n
    ensures forall i, j :: 0 <= i < j < |r| ==> r[i] < r[j]
    ensures forall i :: 0 <= i < |r| ==> r[i] as int < n && f[r[i] as int] != 0
    ensures forall k :: 0 <= k < n && f[k] != 0 ==> (k as char) in r
  {
    if n == 0 then [] else SymbolsUpTo(f, n - 1) + (if f[n - 1] != 0 then [(n - 1) as char] else [])
  }

  /** The loop that fills `symbols` from the nonzero entries of `freq`. */
  method CollectSymbols(freq: array<int>) returns (symbols: seq<char>)
    requires freq.Length == MaxChar
    ensures symbols == SymbolsUpTo(freq[..], MaxChar)
  {
    symbols := [];
    for i := 0 to MaxChar
      invariant symbols == SymbolsUpTo(freq[..], i)
    {
      if freq[i] != 0 {
        symbols := symbols + [i as char];
      }
    }
  }

  /** The part of `main` before the tree is built: masked line, counts and symbols. */
  method Preprocess(text: seq<char>) returns (masked: seq<char>, freq: seq<int>, symbols: seq<char>)
    requires Ascii(text)
    ensures masked == Masked(text) && freq == Counts(masked)
    ensures symbols == SymbolsUpTo(freq, MaxChar)
  {
    var str := new char[|text|](i requires 0 <= i < |text| => text[i]);
    assert str[..] == text;
    var f := MaskAndCount(str);
    symbols := CollectSymbols(f);
    masked, freq := str[..], f[..];
  }

  /** The symbol table is never empty for a non-empty line, and holds at most MAX_CHAR symbols. */
  lemma {:induction false} SymbolsOfLine(masked: seq<char>)
    requires Ascii(masked) && |masked| >= 1
    ensures 1 <= |SymbolsUpTo(Counts(masked), MaxChar)| <= MaxChar
  {
    var t := masked[..|masked| - 1];
    assert masked == t + [masked[|masked| - 1]];
    assert Counts(masked)[masked[|masked| - 1] as int] != 0;
  }

  /** Masking keeps a line ASCII: '*' is below MAX_CHAR. */
  lemma {:induction false} MaskedAscii(s: seq<char>)
    requires Ascii(s)
    ensures Ascii(Masked(s))
  {
  }

  // ---- From a tree over the symbols to the code table ----

  /** Leaves made from strictly increasing characters occur once each. */
  lemma {:induction false} OnceEach(symbols: seq<char>, fs: seq<int>, n: int)
    requires 0 <= n <= |symbols| && n <= |fs|
    requires forall i, j :: 0 <= i < j < n ==> symbols[i] < symbols[j]
    ensures var m := multiset(InputLeaves(symbols, fs, n)); forall x :: x in m ==> m[x] == 1
  {
    if n > 0 {
      var s, t := InputLeaves(symbols, fs, n), InputLeaves(symbols, fs, n - 1);
      assert s == t + [s[n - 1]];
      OnceEach(symbols, fs, n - 1);
      assert s[n - 1] !in t by {
        forall k | 0 <= k < n - 1
          ensures t[k] != s[n - 1]
        {
          assert symbols[k] < symbols[n - 1];
        }
      }
      assert multiset(s) == multiset(t) + multiset{s[n - 1]};
    }
  }

  /** Leaves made from strictly increasing characters share no character. */
  lemma {:induction false} OneLeafPerChar(symbols: seq<char>, fs: seq<int>, n: int)
    requires 0 <= n <= |symbols| && n <= |fs|
    requires forall i, j :: 0 <= i < j < n ==> symbols[i] < symbols[j]
    ensures var m := multiset(InputLeaves(symbols, fs, n));
      forall x, y :: x in m && y in m && x.data == y.data ==> x == y
  {
    var s := InputLeaves(symbols, fs, n);
    assert forall i, j :: 0 <= i < n && 0 <= j < n && i != j ==> s[i].data != s[j].data;
  }

  /** A tree has more leaves than levels. */
  lemma {:induction false} HeightBelowLeaves(t: Node)
    ensures Height(t) < |Leaves(t)|
  {
    match t
    case Leaf(_, _) =>
    case Internal(_, _, left, right) =>
      HeightBelowLeaves(left);
      HeightBelowLeaves(right);
  }

  /**
   * A tree whose leaves are the symbols (each with some weight) fits the
   * code buffers and tables, has unique leaves, and its leaf characters are
   * exactly the symbols.
   */
  lemma {:induction false} TreeOverSymbols(root: Node, symbols: seq<char>, fs: seq<int>)
    requires |symbols| <= MaxChar && |symbols| <= |fs|
    requires forall i, j :: 0 <= i < j < |symbols| ==> symbols[i] < symbols[j]
    requires forall i :: 0 <= i < |symbols| ==> symbols[i] as int < MaxChar
    requires multiset(Leaves(root)) == multiset(InputLeaves(symbols, fs, |symbols|))
    ensures Fits(root, MaxChar) && UniqueLeaves(root) && Height(root) < MaxChar
    ensures forall c :: c in Chars(root) <==> c in symbols
  {
    LeafChars(root, symbols, fs);
    OnceEach(symbols, fs, |symbols|);
    OneLeafPerChar(symbols, fs, |symbols|);
    HeightBelowLeaves(root);
    assert |Leaves(root)| == |multiset(Leaves(root))| == |symbols|;
  }

  /** The leaf characters of a tree over the symbols are the symbols. */
  lemma {:induction false} LeafChars(root: Node, symbols: seq<char>, fs: seq<int>)
    requires |symbols| <= |fs|
    requires forall i :: 0 <= i < |symbols| ==> symbols[i] as int < MaxChar
    requires multiset(Leaves(root)) == multiset(InputLeaves(symbols, fs, |symbols|))
    ensures Fits(root, MaxChar)
    ensures forall c :: c in Chars(root) <==> c in symbols
  {
    var s := InputLeaves(symbols, fs, |symbols|);
    forall x | x in Leaves(root)
      ensures x in s
    {
      assert x in multiset(Leaves(root));
    }
    forall c | c in symbols
      ensures c in Chars(root)
    {
      var i :| 0 <= i < |symbols| && symbols[i] == c;
      assert s[i] in multiset(Leaves(root));
    }
  }

  /**
   * `generateCodes(root, code, 0, codes)` on fresh buffers. The rows of
   * `codes` start empty; the source leaves them uninitialised and reads only
   * the rows of symbols.
   */
  method CodeTable(root: Node) returns (codes: seq<seq<char>>)
    requires Fits(root, MaxChar) && Height(root) < MaxChar
    ensures codes == Assign(root, [], seq(MaxChar, _ => []))
  {
    var code := new char[MaxChar];
    var table := new seq<char>[MaxChar](_ => []);
    assert code[..0] == [] && table[..] == seq(MaxChar, _ => []);
    GenerateCodes(root, code, 0, table);
    codes := table[..];
  }

  /** What the code table of a tree over the symbols guarantees. */
  lemma {:induction false} CodesOfSymbols(root: Node, symbols: seq<char>, fs: seq<int>, codes: seq<seq<char>>)
    requires |symbols| <= MaxChar && |symbols| <= |fs|
    requires forall i, j :: 0 <= i < j < |symbols| ==> symbols[i] < symbols[j]
    requires forall i :: 0 <= i < |symbols| ==> symbols[i] as int < MaxChar
    requires multiset(Leaves(root)) == multiset(InputLeaves(symbols, fs, |symbols|))
    requires Fits(root, MaxChar)
    requires codes == Assign(root, [], seq(MaxChar, _ => []))
    ensures |codes| == MaxChar
    ensures forall c :: c in symbols ==> LeafAt(root, codes[c as int], c)
    ensures forall c1, c2 :: c1 in symbols && c2 in symbols && c1 != c2 ==> !(codes[c1 as int] <= codes[c2 as int])
    ensures |symbols| == 1 ==> codes[symbols[0] as int] == []
  {
    TreeOverSymbols(root, symbols, fs);
    forall c1, c2 | c1 in symbols && c2 in symbols && c1 != c2
      ensures LeafAt(root, codes[c1 as int], c1) && !(codes[c1 as int] <= codes[c2 as int])
    {
      CodesPrefixFree(root, seq(MaxChar, _ => []), c1, c2);
    }
    forall c | c in symbols
      ensures LeafAt(root, codes[c as int], c)
    {
      AssignFinds(root, [], seq(MaxChar, _ => []), c);
      assert [] + Code(root, c) == Code(root, c);
    }
    assert root.Internal? ==> |Leaves(root)| == |Leaves(root.left)| + |Leaves(root.right)|;
    if |symbols| == 1 {
      assert symbols[0] in symbols;
      assert |Leaves(root)| == |multiset(Leaves(root))| == 1;
    }
  }

  // ---- `main` ----

  /**
   * `main` as written: `buildHuffmanTree(symbols, freq, symCount)` hands over
   * the table indexed by character code, but `buildMinHeap` reads it by
   * position, so leaf i weighs `freq[i]` (the count of the character with
   * code i) instead of the count of `symbols[i]`.
   */
  method MainAsWritten(text: seq<char>) returns (masked: seq<char>, symbols: seq<char>, root: Node, codes: seq<seq<char>>)
    requires 1 <= |text| < MaxLen && Ascii(text)
    ensures masked == Masked(text) && symbols == SymbolsUpTo(Counts(masked), MaxChar)
    ensures multiset(Leaves(root)) == multiset(InputLeaves(symbols, Counts(masked), |symbols|))
    ensures root.freq == Sum(Counts(masked)[..|symbols|])
    ensures |codes| == MaxChar
    ensures forall c :: c in symbols ==> LeafAt(root, codes[c as int], c)
    ensures forall c1, c2 :: c1 in symbols && c2 in symbols && c1 != c2 ==> !(codes[c1 as int] <= codes[c2 as int])
  {
    var freq;
    masked, freq, symbols := Preprocess(text);
    MaskedAscii(text);
    SymbolsOfLine(masked);
    root := BuildHuffmanTree(symbols, freq, |symbols|);
    SumPrefix(freq, |symbols|);
    CountsSum(masked);
    TreeOverSymbols(root, symbols, freq);
    codes := CodeTable(root);
    CodesOfSymbols(root, symbols, freq, codes);
  }

  /** A prefix of non-negative counts sums to between 0 and the total. */
  lemma {:induction false} SumPrefix(f: seq<int>, n: int)
    requires 0 <= n <= |f| && forall i :: 0 <= i < |f| ==> 0 <= f[i]
    ensures 0 <= Sum(f[..n]) <= Sum(f)
  {
    if n == |f| {
      assert f[..n] == f;
      SumNonNegative(f);
    } else {
      var init := f[..|f| - 1];
      SumPrefix(init, n);
      assert init[..n] == f[..n];
    }
  }

  lemma {:induction false} SumNonNegative(f: seq<int>)
    requires forall i :: 0 <= i < |f| ==> 0 <= f[i]
    ensures 0 <= Sum(f)
  {
    if f != [] {
      SumNonNegative(f[..|f| - 1]);
    }
  }

  /** The counts of a line of one character: one for it, zero for every other code. */
  lemma {:induction false} CountsOfOne(c: char)
    requires 0 < c as int < MaxChar
    ensures Counts([c])[c as int] == 1
    ensures forall k :: 0 <= k < MaxChar && k != c as int ==> Counts([c])[k] == 0
  {
    forall k | 0 <= k < MaxChar
      ensures Counts([c])[k] == if k == c as int then 1 else 0
    {
      assert [c][..0] == [];
      assert Count([c], k as char) == Count([], k as char) + (if c == k as char then 1 else 0);
    }
  }

  /** A table whose only nonzero entry is at k has k as its only symbol. */
  lemma {:induction false} OnlySymbol(f: seq<int>, k: int, n: int)
    requires |f| == MaxChar && 0 <= k < MaxChar && f[k] != 0 && 0 <= n <= MaxChar
    requires forall j :: 0 <= j < MaxChar && j != k ==> f[j] == 0
    ensures SymbolsUpTo(f, n) == if k < n then [k as char] else []
  {
    if n > 0 {
      OnlySymbol(f, k, n - 1);
      var step := if f[n - 1] != 0 then [(n - 1) as char] else [];
      assert SymbolsUpTo(f, n) == SymbolsUpTo(f, n - 1) + step;
      if n - 1 == k {
        assert step == [k as char];
      } else {
        assert step == [];
      }
    }
  }

  /** For the line "b" the single leaf weighs 0 (the count of code 0), not 1. */
  lemma {:induction false} AsWrittenWeighsWrong()
    ensures Masked("b") == "b"
    ensures SymbolsUpTo(Counts("b"), MaxChar) == "b"
    ensures InputLeaves("b", Counts("b"), 1) == [Leaf('b', 0)]
    ensures Sum(Counts("b")[..1]) == 0 != |"b"|
  {
    CountsOfOne('b');
    OnlySymbol(Counts("b"), 'b' as int, MaxChar);
    assert Counts("b")[..1] == [0];
    assert [0][..0] == [];
  }

  /** The weight each symbol should carry: its count, looked up by character code. */
  function SymbolFreqs(symbols: seq<char>, freq: seq<int>): (r: seq<int>)
    requires forall i :: 0 <= i < |symbols| ==> symbols[i] as int < |freq|
    ensures |r| == |symbols|
  {
    seq(|symbols|, i requires 0 <= i < |symbols| => freq[symbols[i] as int])
  }

  lemma {:induction false} SumAppend(xs: seq<int>, x: int)
    ensures Sum(xs + [x]) == Sum(xs) + x
  {
    assert (xs + [x])[..|xs|] == xs;
  }

  /** Weighing the symbols by their own counts covers every count: the total is the line length. */
  lemma {:induction false} SymbolWeight(f: seq<int>, n: int)
    requires 0 <= n <= |f| && n <= MaxChar
    ensures Sum(SymbolFreqs(SymbolsUpTo(f, n), f)) == Sum(f[..n])
  {
    if n > 0 {
      var r := SymbolsUpTo(f, n - 1);
      SymbolWeight(f, n - 1);
      assert f[..n] == f[..n - 1] + [f[n - 1]];
      SumAppend(f[..n - 1], f[n - 1]);
      if f[n - 1] != 0 {
        assert SymbolsUpTo(f, n) == r + [(n - 1) as char];
        FreqsAppend(r, f, (n - 1) as char);
        SumAppend(SymbolFreqs(r, f), f[n - 1]);
      } else {
        assert SymbolsUpTo(f, n) == r;
      }
    }
  }

  lemma {:induction false} FreqsAppend(r: seq<char>, f: seq<int>, c: char)
    requires forall i :: 0 <= i < |r| ==> r[i] as int < |f|
    requires c as int < |f|
    ensures SymbolFreqs(r + [c], f) == SymbolFreqs(r, f) + [f[c as int]]
  {
  }

  /**
   * `main` with the evident intent: leaf i weighs the count of `symbols[i]`.
   * Then the leaves are the symbols with their counts, the root weighs the
   * length of the line, every symbol's code is its root path, no code is a
   * prefix of another, and a line with one distinct character gets the empty
   * code.
   */
  method MainCorrected(text: seq<char>) returns (masked: seq<char>, symbols: seq<char>, root: Node, codes: seq<seq<char>>)
    requires 1 <= |text| < MaxLen && Ascii(text)
    ensures masked == Masked(text) && symbols == SymbolsUpTo(Counts(masked), MaxChar)
    ensures multiset(Leaves(root)) == multiset(InputLeaves(symbols, SymbolFreqs(symbols, Counts(masked)), |symbols|))
    ensures root.freq == |text|
    ensures |codes| == MaxChar
    ensures forall c :: c in symbols ==> LeafAt(root, codes[c as int], c)
    ensures forall c1, c2 :: c1 in symbols && c2 in symbols && c1 != c2 ==> !(codes[c1 as int] <= codes[c2 as int])
    ensures |symbols| == 1 ==> codes[symbols[0] as int] == []
  {
    var freq;
    masked, freq, symbols := Preprocess(text);
    MaskedAscii(text);
    SymbolsOfLine(masked);
    var weights := SymbolFreqs(symbols, freq);
    root := BuildHuffmanTree(symbols, weights, |symbols|);
    SymbolWeight(freq, MaxChar);
    CountsSum(masked);
    assert freq[..MaxChar] == freq;
    assert weights[..|symbols|] == weights;
    TreeOverSymbols(root, symbols, weights);
    codes := CodeTable(root);
    CodesOfSymbols(root, symbols, weights, codes);
  }
}
