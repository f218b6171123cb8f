/**
 * Frequency counting and Huffman tree construction (`BHT`).
 * The tree is a value: the source's heap-allocated `Node`s own their children
 * exclusively and are never shared, so a datatype describes them exactly.
 */
module HuffmanTree {
  import opened Bytes

  /** A Huffman tree node: a leaf holds a byte and its count, an internal node the sum of its children's counts. */
  datatype Tree =
    | Leaf(ch: Byte, freq: int)
    | Node(freq: int, left: Tree, right: Tree)

  /** The frequency table: byte -> number of occurrences. */
  type FreqMap = map<Byte, int>

  /** The count of `c`, or 0 when `c` is absent (what `freqMap[c]` yields before the increment). */
  function Get(m: FreqMap, c: Byte): int
  {
    if c in m then m[c] else 0
  }

  /** Sum of the counts of all bytes below `b`. */
  function TotalBelow(m: FreqMap, b: int): int
    requires 0 <= b <= 256
  {
    if b == 0 then 0 else TotalBelow(m, b - 1) + Get(m, b - 1)
  }

  /** Sum of all counts of the table. */
  function Total(m: FreqMap): int
  {
    TotalBelow(m, 256)
  }

  /** The (byte, count) entries of the table for bytes below `b`, each exactly once. */
  function EntriesBelow(m: FreqMap, b: int): multiset<(Byte, int)>
    requires 0 <= b <= 256
  {
    if b == 0 then multiset{}
    else EntriesBelow(m, b - 1) + (if b - 1 in m then multiset{(b - 1, m[b - 1])} else multiset{})
  }

  /** All (byte, count) entries of the table. */
  function Entries(m: FreqMap): multiset<(Byte, int)>
  {
    EntriesBelow(m, 256)
  }

  lemma {:induction false} TotalBelowUpdate(m: FreqMap, c: Byte, v: int, b: int)
    requires 0 <= b <= 256
    ensures TotalBelow(m[c := v], b) == TotalBelow(m, b) + (if c < b then v - Get(m, c) else 0)
  {
    if b > 0 {
      TotalBelowUpdate(m, c, v, b - 1);
    }
  }

  /** An entry is in the table's entries exactly when the table maps that byte to that count. */
  lemma {:induction false} EntriesBelowMember(m: FreqMap, b: int, c: Byte, f: int)
    requires 0 <= b <= 256
    ensures (c, f) in EntriesBelow(m, b) <==> c < b && c in m && m[c] == f
  {
    if b > 0 {
      EntriesBelowMember(m, b - 1, c, f);
    }
  }

  lemma {:induction false} TotalBelowEmpty(b: int)
    requires 0 <= b <= 256
    ensures TotalBelow(map[], b) == 0
  {
    if b > 0 {
      TotalBelowEmpty(b - 1);
    }
  }

  /** Frequency counting (the loop `freqMap[c]++` over the input): every byte of the
      text is a key, its count is its number of occurrences, and the counts add up to the length. */
  method CountFrequencies(text: seq<Byte>) returns (freqMap: FreqMap)
    ensures forall c :: c in freqMap <==> c in text
    ensures forall c :: c in freqMap ==> freqMap[c] == multiset(text)[c] > 0
    ensures Total(freqMap) == |text|
  {
    freqMap := map[];
    TotalBelowEmpty(256);
    for i := 0 to |text|
      invariant forall c :: c in freqMap <==> c in text[..i]
      invariant forall c :: c in freqMap ==> freqMap[c] == multiset(text[..i])[c] > 0
      invariant Total(freqMap) == i
    {
      var c := text[i];
      assert text[..i + 1] == text[..i] + [c];
      CountStep(freqMap, text[..i], c);
      freqMap := freqMap[c := Get(freqMap, c) + 1];
    }
    assert text[..|text|] == text;
  }

  /** Counting one more byte keeps the table equal to the counts of the text read so far. */
  lemma CountStep(m: FreqMap, prefix: seq<Byte>, c: Byte)
    requires forall d :: d in m <==> d in prefix
    requires forall d :: d in m ==> m[d] == multiset(prefix)[d] > 0
    requires Total(m) == |prefix|
    ensures forall d :: d in m[c := Get(m, c) + 1] <==> d in prefix + [c]
    ensures forall d :: d in m[c := Get(m, c) + 1] ==> m[c := Get(m, c) + 1][d] == multiset(prefix + [c])[d] > 0
    ensures Total(m[c := Get(m, c) + 1]) == |prefix + [c]|
  {
    TotalBelowUpdate(m, c, Get(m, c) + 1, 256);
    assert multiset(prefix + [c]) == multiset(prefix) + multiset{c};
  }

  /** The (byte, count) pairs of the leaves. */
  function Leaves(t: Tree): multiset<(Byte, int)>
  {
    match t
    case Leaf(c, f) => multiset{(c, f)}
    case Node(_, l, r) => Leaves(l) + Leaves(r)
  }

  /** The bytes held by the leaves. */
  function LeafChars(t: Tree): set<Byte>
  {
    match t
    case Leaf(c, _) => {c}
    case Node(_, l, r) => LeafChars(l) + LeafChars(r)
  }

  /** Every internal node's count is the sum of its children's counts. */
  predicate Additive(t: Tree)
  {
    match t
    case Leaf(_, _) => true
    case Node(f, l, r) => f == l.freq + r.freq && Additive(l) && Additive(r)
  }

  /** Every internal node's left child (popped first) weighs no more than its right child. */
  predicate LeftLighter(t: Tree)
  {
    match t
    case Leaf(_, _) => true
    case Node(_, l, r) => l.freq <= r.freq && LeftLighter(l) && LeftLighter(r)
  }

  /** The leaves of the trees of a forest (the contents of the priority queue). */
  function ForestLeaves(h: seq<Tree>): multiset<(Byte, int)>
  {
    if h == [] then multiset{} else ForestLeaves(h[..|h| - 1]) + Leaves(h[|h| - 1])
  }

  /** The summed root counts of a forest. */
  function ForestWeight(h: seq<Tree>): int
  {
    if h == [] then 0 else ForestWeight(h[..|h| - 1]) + h[|h| - 1].freq
  }

  lemma {:induction false} ForestAppend(a: seq<Tree>, b: seq<Tree>)
    ensures ForestLeaves(a + b) == ForestLeaves(a) + ForestLeaves(b)
    ensures ForestWeight(a + b) == ForestWeight(a) + ForestWeight(b)
  {
    if b == [] {
      assert a + b == a;
    } else {
      var n := |b| - 1;
      assert (a + b)[..|a + b| - 1] == a + b[..n];
      ForestAppend(a, b[..n]);
    }
  }

  lemma ForestSingle(t: Tree)
    ensures ForestLeaves([t]) == Leaves(t)
    ensures ForestWeight([t]) == t.freq
  {
    assert [t][..0] == [];
  }

  /** The index of some node of least count. */
  predicate IsMinAt(heap: seq<Tree>, i: int)
  {
    0 <= i < |heap| && forall j :: 0 <= j < |heap| ==> heap[i].freq <= heap[j].freq
  }

  lemma {:induction false} MinExists(heap: seq<Tree>)
    requires heap != []
    ensures exists i :: IsMinAt(heap, i)
  {
    if |heap| > 1 {
      var init := heap[..|heap| - 1];
      MinExists(init);
      var i :| IsMinAt(init, i);
      if heap[i].freq <= heap[|heap| - 1].freq {
        assert IsMinAt(heap, i);
      } else {
        assert IsMinAt(heap, |heap| - 1);
      }
    } else {
      assert IsMinAt(heap, 0);
    }
  }

  /** `top()` followed by `pop()` on the min-heap ordered by `Compare`: removes some node of least
      count. Which one among equal counts is left open, as `std::priority_queue` leaves it open. */
  method PopMin(heap: seq<Tree>) returns (t: Tree, rest: seq<Tree>)
    requires heap != []
    ensures |rest| == |heap| - 1
    ensures multiset(rest) + multiset{t} == multiset(heap)
    ensures t in heap && forall u :: u in rest ==> u in heap
    ensures forall u :: u in heap ==> t.freq <= u.freq
    ensures ForestLeaves(heap) == ForestLeaves(rest) + Leaves(t)
    ensures ForestWeight(heap) == ForestWeight(rest) + t.freq
  {
    MinExists(heap);
    var i :| IsMinAt(heap, i);
    t := heap[i];
    rest := heap[..i] + heap[i + 1..];
    assert heap == heap[..i] + ([t] + heap[i + 1..]);
    ForestAppend(heap[..i], [t] + heap[i + 1..]);
    ForestAppend([t], heap[i + 1..]);
    ForestAppend(heap[..i], heap[i + 1..]);
    assert [t][..0] == [];
    assert multiset(heap) == multiset(heap[..i]) + multiset{t} + multiset(heap[i + 1..]);
  }

  /** The first loop of `BHT`: one leaf per table entry, in ascending byte order. */
  method PushLeaves(freqMap: FreqMap) returns (heap: seq<Tree>)
    ensures forall u :: u in heap ==> u.Leaf?
    ensures ForestLeaves(heap) == Entries(freqMap)
    ensures ForestWeight(heap) == Total(freqMap)
  {
    heap := [];
    for b := 0 to 256
      invariant forall u :: u in heap ==> u.Leaf?
      invariant ForestLeaves(heap) == EntriesBelow(freqMap, b)
      invariant ForestWeight(heap) == TotalBelow(freqMap, b)
    {
      if b in freqMap {
        ForestAppend(heap, [Leaf(b, freqMap[b])]);
        ForestSingle(Leaf(b, freqMap[b]));
        heap := heap + [Leaf(b, freqMap[b])];
      }
    }
  }

  /** One iteration of `BHT`'s second loop: pop the two least-count nodes, push their parent. The
      new queue is the old one without two nodes `l` and `r`, followed by their parent: `l` is of
      least count in the old queue, `r` of least count among the rest, and `l` is the left child. */
  method MergeTwo(heap: seq<Tree>) returns (heap': seq<Tree>)
    requires |heap| > 1
    requires forall u :: u in heap ==> Additive(u) && LeftLighter(u)
    ensures exists l: Tree, r: Tree, rest': seq<Tree> ::
              && heap' == rest' + [Node(l.freq + r.freq, l, r)]
              && multiset(rest') + multiset{l, r} == multiset(heap)
              && (forall u :: u in heap ==> l.freq <= u.freq)
              && (forall u :: u in rest' ==> r.freq <= u.freq)
    ensures |heap'| == |heap| - 1
    ensures forall u :: u in heap' ==> Additive(u) && LeftLighter(u)
    ensures ForestLeaves(heap') == ForestLeaves(heap)
    ensures ForestWeight(heap') == ForestWeight(heap)
  {
    var left, rest := PopMin(heap);
    var right, rest' := PopMin(rest);
    var sumNode := Node(left.freq + right.freq, left, right);
    heap' := rest' + [sumNode];
    MergedForest(rest', left, right);
    MergedShapes(heap, left, rest, right, rest');
    PoppedTwo(heap, left, rest, right, rest');
  }

  /** Two pops remove exactly the two popped nodes from the queue. */
  lemma PoppedTwo(heap: seq<Tree>, left: Tree, rest: seq<Tree>, right: Tree, rest': seq<Tree>)
    requires multiset(rest) + multiset{left} == multiset(heap)
    requires multiset(rest') + multiset{right} == multiset(rest)
    ensures multiset(rest') + multiset{left, right} == multiset(heap)
  {
    assert multiset{left, right} == multiset{right} + multiset{left};
  }

  /** Pushing the parent of two nodes adds their leaves and their counts to the queue's. */
  lemma MergedForest(rest: seq<Tree>, left: Tree, right: Tree)
    ensures ForestLeaves(rest + [Node(left.freq + right.freq, left, right)])
            == (ForestLeaves(rest) + Leaves(right)) + Leaves(left)
    ensures ForestWeight(rest + [Node(left.freq + right.freq, left, right)])
            == ForestWeight(rest) + right.freq + left.freq
  {
    var sumNode := Node(left.freq + right.freq, left, right);
    ForestAppend(rest, [sumNode]);
    ForestSingle(sumNode);
    assert ForestLeaves(rest) + (Leaves(left) + Leaves(right)) == (ForestLeaves(rest) + Leaves(right)) + Leaves(left);
  }

  /** The parent of the first-popped (lighter) node and the second-popped node sums its children,
      and the other trees of the queue are unchanged. */
  lemma MergedShapes(heap: seq<Tree>, left: Tree, rest: seq<Tree>, right: Tree, rest': seq<Tree>)
    requires forall u :: u in heap ==> Additive(u) && LeftLighter(u)
    requires left in heap && (forall u :: u in heap ==> left.freq <= u.freq)
    requires right in rest && (forall u :: u in rest ==> u in heap)
    requires forall u :: u in rest' ==> u in rest
    ensures forall u :: u in rest' + [Node(left.freq + right.freq, left, right)] ==> Additive(u) && LeftLighter(u)
  {
    var sumNode := Node(left.freq + right.freq, left, right);
    assert right in heap;
    assert Additive(sumNode) && LeftLighter(sumNode);
    forall u | u in rest' + [sumNode]
      ensures Additive(u) && LeftLighter(u)
    {
      if u != sumNode {
        assert u in rest;
      }
    }
  }

  /** `BHT`: pushes one leaf per table entry, then merges the two least-count nodes (first popped
      becomes the left child) until one node is left. Whatever the tie-break, the result has exactly
      the table's entries as leaves, sums at every internal node, the total count at the root, and a
      left child no heavier than its sibling. */
  method BuildHuffmanTree(freqMap: FreqMap) returns (root: Tree)
    requires freqMap != map[]
    ensures Additive(root) && LeftLighter(root)
    ensures Leaves(root) == Entries(freqMap)
    ensures root.freq == Total(freqMap)
  {
    var heap := PushLeaves(freqMap);
    var k :| k in freqMap;
    EntriesBelowMember(freqMap, 256, k, freqMap[k]);
    assert heap != [];
    while |heap| > 1
      invariant heap != []
      invariant forall u :: u in heap ==> Additive(u) && LeftLighter(u)
      invariant ForestLeaves(heap) == Entries(freqMap)
      invariant ForestWeight(heap) == Total(freqMap)
      decreases |heap|
    {
      heap := MergeTwo(heap);
    }
    root := heap[0];
    assert heap == [root];
    ForestSingle(root);
  }

  /** Every tree has at least one leaf, an internal node at least two. */
  lemma {:induction false} LeavesSize(t: Tree)
    ensures |Leaves(t)| >= 1
    ensures t.Node? ==> |Leaves(t)| >= 2
  {
    match t
    case Leaf(_, _) =>
    case Node(_, l, r) =>
      LeavesSize(l);
      LeavesSize(r);
  }

  /** The bytes of the leaves are the bytes that occur as first component of a leaf pair. */
  lemma {:induction false} LeafCharsOfLeaves(t: Tree, c: Byte)
    ensures c in LeafChars(t) <==> exists f :: (c, f) in Leaves(t)
  {
    match t
    case Leaf(d, f) =>
      if c == d {
        assert (c, f) in Leaves(t);
      }
    case Node(_, l, r) =>
      LeafCharsOfLeaves(l, c);
      LeafCharsOfLeaves(r, c);
  }

  /** A tree whose leaves are a table's entries holds exactly the table's bytes. */
  lemma LeafCharsAreKeys(t: Tree, m: FreqMap)
    requires Leaves(t) == Entries(m)
    ensures LeafChars(t) == m.Keys
  {
    forall c: Byte
      ensures c in LeafChars(t) <==> c in m
    {
      LeafCharsOfLeaves(t, c);
      if c in m {
        EntriesBelowMember(m, 256, c, m[c]);
      }
      if c in LeafChars(t) {
        var f :| (c, f) in Leaves(t);
        EntriesBelowMember(m, 256, c, f);
      }
    }
  }

  /** A table with two distinct bytes gives a tree whose root is an internal node. */
  lemma TwoKeysGiveNode(t: Tree, m: FreqMap, c: Byte, d: Byte)
    requires Leaves(t) == Entries(m)
    requires c in m && d in m && c != d
    ensures t.Node?
  {
    EntriesBelowMember(m, 256, c, m[c]);
    EntriesBelowMember(m, 256, d, m[d]);
  }

  /** A table with a single byte gives a single leaf as the whole tree. */
  lemma {:induction false} OneKeyGivesLeaf(t: Tree, m: FreqMap, c: Byte)
    requires Leaves(t) == Entries(m)
    requires m.Keys == {c}
    ensures t == Leaf(c, m[c])
  {
    assert Entries(m) == multiset{(c, m[c])} by {
      var b := 256;
      SingleEntryBelow(m, c, b);
    }
    LeavesSize(t);
  }

  lemma {:induction false} SingleEntryBelow(m: FreqMap, c: Byte, b: int)
    requires 0 <= b <= 256
    requires m.Keys == {c}
    ensures EntriesBelow(m, b) == if c < b then multiset{(c, m[c])} else multiset{}
  {
    if b > 0 {
      SingleEntryBelow(m, c, b - 1);
    }
  }
}
