/**
 * Huffman coding: build a tree by repeatedly merging the two nodes of least
 * frequency taken from a priority queue, then walk the tree appending '0' for
 * a left edge and '1' for a right edge to obtain one code per character.  The
 * priority queue is modelled as an unordered sequence of trees with
 * extract-min; which of several nodes of equal frequency comes out first is
 * left open.
 */
module Huffman {
  import opened Wrappers

  /** A leaf holds a character and its frequency; an internal node a frequency and two children. */
  datatype Node = Leaf(ch: char, freq: int) | Internal(freq: int, left: Node, right: Node)

  /** The (character, frequency) pairs at the leaves, left to right. */
  function Leaves(t: Node): seq<(char, int)>
  {
    match t
    case Leaf(c, f) => [(c, f)]
    case Internal(_, l, r) => Leaves(l) + Leaves(r)
  }

  /** Every internal node's frequency is the sum of its children's. */
  predicate WellFormed(t: Node)
  {
    match t
    case Leaf(_, _) => true
    case Internal(f, l, r) => f == l.freq + r.freq && WellFormed(l) && WellFormed(r)
  }

  /** At every internal node the left child's frequency is at most the right child's. */
  predicate Ordered(t: Node)
  {
    match t
    case Leaf(_, _) => true
    case Internal(_, l, r) => l.freq <= r.freq && Ordered(l) && Ordered(r)
  }

  function FreqSum(s: seq<(char, int)>): int
  {
    if s == [] then 0 else s[0].1 + FreqSum(s[1..])
  }

  lemma {:induction false} FreqSumConcat(a: seq<(char, int)>, b: seq<(char, int)>)
    ensures FreqSum(a + b) == FreqSum(a) + FreqSum(b)
  {
    if a == [] {
      assert a + b == b;
    } else {
      assert (a + b)[1..] == a[1..] + b;
      FreqSumConcat(a[1..], b);
    }
  }

  lemma {:induction false} FreqSumSnoc(s: seq<(char, int)>, x: (char, int))
    ensures FreqSum(s + [x]) == FreqSum(s) + x.1
  {
    FreqSumConcat(s, [x]);
  }

  /** In a well-formed tree the root's frequency is the sum over its leaves. */
  lemma {:induction false} RootFreqIsLeafSum(t: Node)
    requires WellFormed(t)
    ensures t.freq == FreqSum(Leaves(t))
  {
    match t
    case Leaf(c, f) =>
    case Internal(_, l, r) =>
      RootFreqIsLeafSum(l);
      RootFreqIsLeafSum(r);
      FreqSumConcat(Leaves(l), Leaves(r));
  }

  lemma {:induction false} LeavesNonEmpty(t: Node)
    ensures |Leaves(t)| >= 1
    ensures |Leaves(t)| == 1 <==> t.Leaf?
  {
    match t
    case Leaf(_, _) =>
    case Internal(_, l, r) =>
      LeavesNonEmpty(l);
      LeavesNonEmpty(r);
  }

  // ---------------------------------------------------------------------
  // The priority queue, as an unordered sequence of trees

  /** The leaves of one tree, as a multiset. */
  function Bag(t: Node): multiset<(char, int)>
  {
    multiset(Leaves(t))
  }

  /** The sum of the frequencies of the trees in the queue. */
  function Total(q: seq<Node>): int
  {
    if q == [] then 0 else q[0].freq + Total(q[1..])
  }

  /** All (character, frequency) pairs at the leaves of the trees in the queue. */
  function LeafBag(q: seq<Node>): multiset<(char, int)>
  {
    if q == [] then multiset{} else Bag(q[0]) + LeafBag(q[1..])
  }

  lemma {:induction false} QueueConcat(a: seq<Node>, b: seq<Node>)
    ensures Total(a + b) == Total(a) + Total(b)
    ensures LeafBag(a + b) == LeafBag(a) + LeafBag(b)
  {
    if a == [] {
      assert a + b == b;
    } else {
      assert (a + b)[1..] == a[1..] + b;
      QueueConcat(a[1..], b);
    }
  }

  /** The queue with the tree at index k taken out. */
  function Without(q: seq<Node>, k: nat): (r: seq<Node>)
    requires k < |q|
    ensures |r| == |q| - 1
  {
    q[..k] + q[k + 1..]
  }

  /** Index i of the shortened queue is index i or i + 1 of the original. */
  lemma WithoutIndex(q: seq<Node>, k: nat, i: nat)
    requires k < |q| && i < |q| - 1
    ensures Without(q, k)[i] == if i < k then q[i] else q[i + 1]
  {
  }

  lemma QueueSingleton(y: Node)
    ensures Total([y]) == y.freq
    ensures LeafBag([y]) == Bag(y)
  {
    assert [y][1..] == [];
  }

  /** Adding a tree adds its frequency and its leaves. */
  lemma QueueAdd(q: seq<Node>, y: Node)
    ensures Total(q + [y]) == Total(q) + y.freq
    ensures LeafBag(q + [y]) == LeafBag(q) + Bag(y)
  {
    QueueConcat(q, [y]);
    QueueSingleton(y);
  }

  /** Taking the tree at index k out of the queue takes out its frequency and its leaves. */
  lemma QueueRemoveAt(q: seq<Node>, k: nat)
    requires k < |q|
    ensures Total(q) == q[k].freq + Total(Without(q, k))
    ensures LeafBag(q) == Bag(q[k]) + LeafBag(Without(q, k))
  {
    SplitAt(q, k);
    QueueSplit(q[..k], q[k], q[k + 1..]);
  }

  lemma SplitAt(q: seq<Node>, k: nat)
    requires k < |q|
    ensures q == q[..k] + [q[k]] + q[k + 1..]
    ensures Without(q, k) == q[..k] + q[k + 1..]
  {
  }

  lemma QueueSplit(a: seq<Node>, y: Node, b: seq<Node>)
    ensures Total(a + [y] + b) == y.freq + Total(a + b)
    ensures LeafBag(a + [y] + b) == Bag(y) + LeafBag(a + b)
  {
    QueueConcat(a + [y], b);
    QueueAdd(a, y);
    QueueConcat(a, b);
  }

  /** The tree at index k has the least frequency in the queue. */
  predicate IsMinAt(q: seq<Node>, k: int)
  {
    0 <= k < |q| && forall j :: 0 <= j < |q| ==> q[k].freq <= q[j].freq
  }

  /** A non-empty queue has a node of least frequency. */
  lemma {:induction false} MinExists(q: seq<Node>)
    requires q != []
    ensures exists k :: IsMinAt(q, k)
  {
    if |q| == 1 {
      assert IsMinAt(q, 0);
    } else {
      var t := q[1..];
      MinExists(t);
      var k :| IsMinAt(t, k);
      var w := if q[0].freq <= t[k].freq then 0 else k + 1;
      forall j | 0 <= j < |q|
        ensures q[w].freq <= q[j].freq
      {
        if j > 0 {
          assert t[j - 1] == q[j];
        }
      }
      assert IsMinAt(q, w);
    }
  }

  /**
   * `pq.poll()`: remove and return a node of least frequency; `k` is where it
   * stood.  Which one of several equally small nodes comes out is not fixed.
   */
  method Poll(q: seq<Node>) returns (m: Node, rest: seq<Node>, k: nat)
    requires q != []
    ensures IsMinAt(q, k) && m == q[k]
    ensures rest == Without(q, k)
  {
    MinExists(q);
    k :| IsMinAt(q, k);
    m, rest := q[k], Without(q, k);
  }

  /** Every tree in the queue is well formed and ordered. */
  predicate AllTrees(q: seq<Node>)
  {
    forall i :: 0 <= i < |q| ==> WellFormed(q[i]) && Ordered(q[i])
  }

  lemma AllTreesWithout(q: seq<Node>, k: nat)
    requires k < |q| && AllTrees(q)
    ensures AllTrees(Without(q, k))
  {
    forall i | 0 <= i < |q| - 1
      ensures WellFormed(Without(q, k)[i]) && Ordered(Without(q, k)[i])
    {
      WithoutIndex(q, k, i);
    }
  }

  lemma AllTreesAdd(q: seq<Node>, y: Node)
    requires AllTrees(q) && WellFormed(y) && Ordered(y)
    ensures AllTrees(q + [y])
  {
    forall i | 0 <= i < |q| + 1
      ensures WellFormed((q + [y])[i]) && Ordered((q + [y])[i])
    {
      if i < |q| {
        assert (q + [y])[i] == q[i];
      }
    }
  }

  /**
   * One iteration of the build loop: poll the two least frequent nodes,
   * join them under a new node whose frequency is their sum, and add it back.
   * The queue keeps its total frequency and its leaves, loses one tree, and
   * keeps every tree well formed and ordered.
   */
  method MergeTwoSmallest(q: seq<Node>) returns (left: Node, right: Node, next: seq<Node>, i: nat, j: nat)
    requires |q| >= 2
    ensures IsMinAt(q, i) && left == q[i]
    ensures IsMinAt(Without(q, i), j) && right == Without(q, i)[j]
    ensures next == Without(Without(q, i), j) + [Internal(left.freq + right.freq, left, right)]
    ensures left.freq <= right.freq
    ensures |next| == |q| - 1
    ensures Total(next) == Total(q)
    ensures LeafBag(next) == LeafBag(q)
    ensures AllTrees(q) ==> AllTrees(next)
  {
    var rest1, rest2;
    left, rest1, i := Poll(q);
    right, rest2, j := Poll(rest1);
    WithoutIndex(q, i, j);
    var node := Internal(left.freq + right.freq, left, right);
    next := rest2 + [node];
    QueueRemoveAt(q, i);
    QueueRemoveAt(rest1, j);
    QueueAdd(rest2, node);
    if AllTrees(q) {
      AllTreesWithout(q, i);
      AllTreesWithout(rest1, j);
      assert WellFormed(left) && Ordered(left);
      assert WellFormed(right) && Ordered(right);
      AllTreesAdd(rest2, node);
    }
  }

  /** Queueing the leaf for input[i] extends the sums from input[..i] to input[..i + 1]. */
  lemma EnqueueStep(pq: seq<Node>, input: seq<(char, int)>, i: nat)
    requires i < |input|
    requires Total(pq) == FreqSum(input[..i]) && LeafBag(pq) == multiset(input[..i])
    ensures Total(pq + [Leaf(input[i].0, input[i].1)]) == FreqSum(input[..i + 1])
    ensures LeafBag(pq + [Leaf(input[i].0, input[i].1)]) == multiset(input[..i + 1])
  {
    var x := input[i];
    QueueAdd(pq, Leaf(x.0, x.1));
    assert input[..i + 1] == input[..i] + [x];
    FreqSumSnoc(input[..i], x);
  }

  lemma WholePrefix<T>(s: seq<T>)
    ensures s[..|s|] == s
  {
  }

  /**
   * The first loop of `main`: one leaf per (character, frequency) pair,
   * queued in input order.
   */
  method EnqueueLeaves(input: seq<(char, int)>) returns (pq: seq<Node>)
    ensures |pq| == |input|
    ensures forall i :: 0 <= i < |input| ==> pq[i] == Leaf(input[i].0, input[i].1)
    ensures AllTrees(pq)
    ensures Total(pq) == FreqSum(input) && LeafBag(pq) == multiset(input)
  {
    pq := [];
    for i := 0 to |input|
      invariant |pq| == i
      invariant forall k :: 0 <= k < i ==> pq[k] == Leaf(input[k].0, input[k].1)
      invariant AllTrees(pq)
      invariant Total(pq) == FreqSum(input[..i])
      invariant LeafBag(pq) == multiset(input[..i])
    {
      var leaf := Leaf(input[i].0, input[i].1);
      EnqueueStep(pq, input, i);
      AllTreesAdd(pq, leaf);
      pq := pq + [leaf];
    }
    WholePrefix(input);
  }

  /** A queue holding one tree holds it with the queue's frequency and leaves. */
  lemma LastTree(pq: seq<Node>, input: seq<(char, int)>)
    requires |pq| == 1 && AllTrees(pq)
    requires Total(pq) == FreqSum(input) && LeafBag(pq) == multiset(input)
    ensures WellFormed(pq[0]) && Ordered(pq[0])
    ensures pq[0].freq == FreqSum(input) && Bag(pq[0]) == multiset(input)
  {
    assert pq == [pq[0]];
    QueueSingleton(pq[0]);
  }

  /**
   * The build in `main`: one leaf per input pair goes into the queue, merges
   * run while more than one node is queued, and the last node polled is the
   * root (absent for an empty input).  `merges` counts the loop iterations.
   */
  method Build(input: seq<(char, int)>) returns (root: Option<Node>, ghost merges: nat)
    ensures root == None <==> input == []
    ensures input != [] ==> merges == |input| - 1
    ensures root.Some? ==> WellFormed(root.value) && Ordered(root.value)
    ensures root.Some? ==> root.value.freq == FreqSum(input)
    ensures root.Some? ==> multiset(Leaves(root.value)) == multiset(input)
    ensures |input| == 1 ==> root == Some(Leaf(input[0].0, input[0].1))
  {
    var pq := EnqueueLeaves(input);
    merges := 0;
    while |pq| > 1
      invariant AllTrees(pq)
      invariant Total(pq) == FreqSum(input)
      invariant LeafBag(pq) == multiset(input)
      invariant merges + |pq| == |input|
      invariant |input| == 1 ==> pq == [Leaf(input[0].0, input[0].1)]
      decreases |pq|
    {
      var left, right, next, i, j := MergeTwoSmallest(pq);
      pq := next;
      merges := merges + 1;
    }
    if |pq| == 0 {
      root := None;
    } else {
      var last, rest, k := Poll(pq);
      LastTree(pq, input);
      root := Some(last);
    }
  }

  // ---------------------------------------------------------------------
  // Code assignment

  /** `printCodes(root, code)`, returning the (character, code) pairs it prints, in order. */
  function PrintCodes(root: Option<Node>, code: string): (r: seq<(char, string)>)
    ensures |r| == if root.Some? then |Leaves(root.value)| else 0
  {
    match root
    case None => []
    case Some(t) => CodesFrom(t, code)
  }

  /** The pairs printed for the subtree `t` reached along `code`: one per leaf. */
  function CodesFrom(t: Node, code: string): (r: seq<(char, string)>)
    ensures |r| == |Leaves(t)|
  {
    match t
    case Leaf(c, _) => [(c, code)]
    case Internal(_, l, r) => CodesFrom(l, code + "0") + CodesFrom(r, code + "1")
  }

  /** Follow a string of '0'/'1' from the root; a leaf must be reached exactly at its end. */
  function Decode(t: Node, bits: string): Option<(char, int)>
  {
    match t
    case Leaf(c, f) => if bits == [] then Some((c, f)) else None
    case Internal(_, l, r) =>
      if bits == [] then None
      else if bits[0] == '0' then Decode(l, bits[1..])
      else if bits[0] == '1' then Decode(r, bits[1..])
      else None
  }

  predicate IsPrefix(a: string, b: string)
  {
    |a| <= |b| && a == b[..|a|]
  }

  /** No code is a prefix of another (two entries may not even be equal). */
  predicate PrefixFree(codes: seq<(char, string)>)
  {
    forall i, j :: 0 <= i < |codes| && 0 <= j < |codes| && i != j ==> !IsPrefix(codes[i].1, codes[j].1)
  }

  /**
   * One code per leaf, in leaf order: entry i names the character of leaf i,
   * its code extends `code`, and following the rest of it from `t` arrives at
   * exactly that leaf.
   */
  lemma {:induction false} CodesMatchLeaves(t: Node, code: string)
    ensures |CodesFrom(t, code)| == |Leaves(t)|
    ensures forall i :: 0 <= i < |Leaves(t)| ==> CodeMatchesLeaf(t, code, i)
  {
    match t
    case Leaf(c, f) =>
      assert CodesFrom(t, code)[0].1[|code|..] == [];
    case Internal(_, l, r) =>
      var cl := CodesFrom(l, code + "0");
      CodesMatchLeaves(l, code + "0");
      CodesMatchLeaves(r, code + "1");
      forall i | 0 <= i < |Leaves(t)|
        ensures CodeMatchesLeaf(t, code, i)
      {
        if i < |cl| {
          CodeOnLeft(t, code, i);
        } else {
          CodeOnRight(t, code, i);
        }
      }
  }

  /** Entry i of the codes of `t` names leaf i, extends `code`, and leads from `t` to that leaf. */
  predicate CodeMatchesLeaf(t: Node, code: string, i: nat)
    requires |CodesFrom(t, code)| == |Leaves(t)| && i < |Leaves(t)|
  {
    var e := CodesFrom(t, code)[i];
    e.0 == Leaves(t)[i].0 && IsPrefix(code, e.1) && Decode(t, e.1[|code|..]) == Some(Leaves(t)[i])
  }

  lemma CodeOnLeft(t: Node, code: string, i: nat)
    requires t.Internal? && i < |Leaves(t.left)|
    requires |CodesFrom(t.left, code + "0")| == |Leaves(t.left)|
    requires |CodesFrom(t.right, code + "1")| == |Leaves(t.right)|
    requires CodeMatchesLeaf(t.left, code + "0", i)
    ensures |CodesFrom(t, code)| == |Leaves(t)| && CodeMatchesLeaf(t, code, i)
  {
    var cl, cr := CodesFrom(t.left, code + "0"), CodesFrom(t.right, code + "1");
    assert CodesFrom(t, code) == cl + cr && Leaves(t) == Leaves(t.left) + Leaves(t.right);
    assert CodesFrom(t, code)[i] == cl[i] && Leaves(t)[i] == Leaves(t.left)[i];
    PrefixStep(code, '0', cl[i].1);
  }

  lemma CodeOnRight(t: Node, code: string, i: nat)
    requires t.Internal? && |Leaves(t.left)| <= i < |Leaves(t)|
    requires |CodesFrom(t.left, code + "0")| == |Leaves(t.left)|
    requires |CodesFrom(t.right, code + "1")| == |Leaves(t.right)|
    requires CodeMatchesLeaf(t.right, code + "1", i - |Leaves(t.left)|)
    ensures |CodesFrom(t, code)| == |Leaves(t)| && CodeMatchesLeaf(t, code, i)
  {
    var cl, cr := CodesFrom(t.left, code + "0"), CodesFrom(t.right, code + "1");
    var k := i - |cl|;
    assert CodesFrom(t, code) == cl + cr && Leaves(t) == Leaves(t.left) + Leaves(t.right);
    assert CodesFrom(t, code)[i] == cr[k] && Leaves(t)[i] == Leaves(t.right)[k];
    PrefixStep(code, '1', cr[k].1);
  }

  /** A string extending `code` followed by bit b extends `code`, and its rest after `code` starts with b. */
  lemma PrefixStep(code: string, b: char, s: string)
    requires IsPrefix(code + [b], s)
    ensures IsPrefix(code, s) && |s[|code|..]| > 0 && s[|code|..][0] == b
    ensures s[|code|..][1..] == s[|code| + 1..]
  {
    assert s[..|code|] == (code + [b])[..|code|];
  }

  /** The codes of a tree are prefix-free. */
  lemma {:induction false} CodesPrefixFree(t: Node, code: string)
    ensures PrefixFree(CodesFrom(t, code))
  {
    match t
    case Leaf(_, _) =>
    case Internal(_, l, r) =>
      var cl, cr := CodesFrom(l, code + "0"), CodesFrom(r, code + "1");
      CodesPrefixFree(l, code + "0");
      CodesPrefixFree(r, code + "1");
      CodesMatchLeaves(l, code + "0");
      CodesMatchLeaves(r, code + "1");
      var all := cl + cr;
      forall i, j | 0 <= i < |all| && 0 <= j < |all| && i != j
        ensures !IsPrefix(all[i].1, all[j].1)
      {
        if i < |cl| && j >= |cl| {
          assert CodeMatchesLeaf(l, code + "0", i) && CodeMatchesLeaf(r, code + "1", j - |cl|);
          assert all[i] == cl[i] && all[j] == cr[j - |cl|];
          CrossNotPrefix(code, all[i].1, all[j].1, '0', '1');
        } else if i >= |cl| && j < |cl| {
          assert CodeMatchesLeaf(r, code + "1", i - |cl|) && CodeMatchesLeaf(l, code + "0", j);
          assert all[i] == cr[i - |cl|] && all[j] == cl[j];
          CrossNotPrefix(code, all[i].1, all[j].1, '1', '0');
        } else if i < |cl| {
          assert all[i] == cl[i] && all[j] == cl[j];
        } else {
          assert all[i] == cr[i - |cl|] && all[j] == cr[j - |cl|];
        }
      }
  }

  /** Codes that branch differently right after `code` are not prefixes of one another. */
  lemma CrossNotPrefix(code: string, a: string, b: string, x: char, y: char)
    requires x != y
    requires IsPrefix(code + [x], a) && IsPrefix(code + [y], b)
    ensures !IsPrefix(a, b)
  {
    assert a[|code|] == x && b[|code|] == y;
  }

  /**
   * The whole of `main`: build the tree from the (character, frequency)
   * pairs and print the codes from the root with an empty prefix.  There is
   * one code per input pair, the codes are prefix-free, and every code leads
   * from the root to its character's leaf.
   */
  method HuffmanMain(input: seq<(char, int)>) returns (root: Option<Node>, codes: seq<(char, string)>)
    ensures codes == PrintCodes(root, "")
    ensures |codes| == |input|
    ensures multiset(CodeChars(codes)) == multiset(Chars(input))
    ensures PrefixFree(codes)
    ensures root.Some? ==> forall i :: 0 <= i < |codes| ==>
              Decode(root.value, codes[i].1).Some? && Decode(root.value, codes[i].1).value.0 == codes[i].0
    ensures root.Some? ==> root.value.freq == FreqSum(input)
    ensures input == [] ==> codes == []
    ensures |input| == 1 ==> codes == [(input[0].0, "")]
  {
    ghost var merges;
    root, merges := Build(input);
    codes := PrintCodes(root, "");
    if root.Some? {
      CodesMatchLeaves(root.value, "");
      CodesPrefixFree(root.value, "");
      var lv := Leaves(root.value);
      forall i | 0 <= i < |codes|
        ensures CodeChars(codes)[i] == Chars(lv)[i]
      {
        assert CodeMatchesLeaf(root.value, "", i);
      }
      assert CodeChars(codes) == Chars(lv);
      CharsOfPermutation(lv, input);
      forall i | 0 <= i < |codes|
        ensures Decode(root.value, codes[i].1).Some? && Decode(root.value, codes[i].1).value.0 == codes[i].0
      {
        assert CodeMatchesLeaf(root.value, "", i);
        assert codes[i].1[0..] == codes[i].1;
      }
    }
  }

  function Chars(s: seq<(char, int)>): seq<char>
  {
    seq(|s|, i requires 0 <= i < |s| => s[i].0)
  }

  function CodeChars(s: seq<(char, string)>): seq<char>
  {
    seq(|s|, i requires 0 <= i < |s| => s[i].0)
  }

  lemma Cancel<T>(x: T, p: multiset<T>, r: multiset<T>)
    requires multiset{x} + p == multiset{x} + r
    ensures p == r
  {
    assert p == (multiset{x} + p) - multiset{x};
  }

  lemma CharsConcat(a: seq<(char, int)>, b: seq<(char, int)>)
    ensures Chars(a + b) == Chars(a) + Chars(b)
  {
  }

  /** Rearranging pairs rearranges their characters the same way, and keeps the length. */
  lemma {:induction false} CharsOfPermutation(a: seq<(char, int)>, b: seq<(char, int)>)
    requires multiset(a) == multiset(b)
    ensures |a| == |b|
    ensures multiset(Chars(a)) == multiset(Chars(b))
    decreases |a|
  {
    assert |a| == |multiset(a)| == |multiset(b)| == |b|;
    if a != [] {
      var x, a' := a[0], a[1..];
      assert x in multiset(b);
      var k :| 0 <= k < |b| && b[k] == x;
      var u, v := b[..k], b[k + 1..];
      assert b == u + [x] + v;
      assert a == [x] + a';
      assert multiset(a) == multiset{x} + multiset(a');
      assert multiset(b) == multiset{x} + multiset(u + v) by {
        assert multiset(b) == multiset(u) + multiset{x} + multiset(v);
        assert multiset(u + v) == multiset(u) + multiset(v);
      }
      Cancel(x, multiset(a'), multiset(u + v));
      CharsOfPermutation(a', u + v);
      CharsConcat([x], a');
      CharsConcat(u + [x], v);
      CharsConcat(u, [x]);
      CharsConcat(u, v);
    }
  }
}
