/**
 * Code assignment (`assignHuffmanCodes`), encoding by code concatenation, and the
 * tree-walking decoder (`decodeHuffman`).
 */
module HuffmanCoding {
  import opened Bytes
  import opened HuffmanTree

  /** The code table: byte -> bit string. */
  type CodeTable = map<Byte, seq<Bit>>

  /** `path` leads from the top of `t` to a leaf holding `c`, bit 0 going left and any other bit right. */
  predicate IsLeafPath(t: Tree, path: seq<Bit>, c: Byte)
  {
    match t
    case Leaf(ch, _) => path == [] && ch == c
    case Node(_, l, r) => path != [] && IsLeafPath(if path[0] == 0 then l else r, path[1..], c)
  }

  /** `assignHuffmanCodes(t, code, acc)`: records, for every leaf, the path walked so far; the right
      subtree is visited after the left, so it wins if a byte were held twice. It adds an entry for
      exactly the bytes of the tree. */
  function AssignHuffmanCodes(t: Tree, code: seq<Bit>, acc: CodeTable): (codes: CodeTable)
    ensures codes.Keys == acc.Keys + LeafChars(t)
  {
    match t
    case Leaf(c, _) =>
      acc[c := code]
    case Node(_, l, r) =>
      AssignHuffmanCodes(r, code + [1], AssignHuffmanCodes(l, code + [0], acc))
  }

  /** Bytes outside the tree keep their entry, and every byte of the tree gets `code` followed by
      its path inside `t`. */
  lemma {:induction false} AssignedCodes(t: Tree, code: seq<Bit>, acc: CodeTable)
    ensures forall c :: c in acc && c !in LeafChars(t) ==> AssignHuffmanCodes(t, code, acc)[c] == acc[c]
    ensures forall c :: c in LeafChars(t) ==>
              code <= AssignHuffmanCodes(t, code, acc)[c]
              && IsLeafPath(t, AssignHuffmanCodes(t, code, acc)[c][|code|..], c)
  {
    match t
    case Leaf(_, _) =>
    case Node(_, l, r) =>
      var afterLeft := AssignHuffmanCodes(l, code + [0], acc);
      AssignedCodes(l, code + [0], acc);
      AssignedCodes(r, code + [1], afterLeft);
      NodeCodes(t, code, acc, afterLeft, AssignHuffmanCodes(t, code, acc));
  }

  /** The codes recorded for the two subtrees of a node are, after `code`, paths of the node. */
  lemma NodeCodes(t: Tree, code: seq<Bit>, acc: CodeTable, afterLeft: CodeTable, codes: CodeTable)
    requires t.Node?
    requires afterLeft.Keys == acc.Keys + LeafChars(t.left)
    requires codes.Keys == afterLeft.Keys + LeafChars(t.right)
    requires forall c :: c in LeafChars(t.left) ==>
               code + [0] <= afterLeft[c] && IsLeafPath(t.left, afterLeft[c][|code + [0]|..], c)
    requires forall c :: c in afterLeft && c !in LeafChars(t.right) ==> codes[c] == afterLeft[c]
    requires forall c :: c in LeafChars(t.right) ==>
               code + [1] <= codes[c] && IsLeafPath(t.right, codes[c][|code + [1]|..], c)
    ensures forall c :: c in LeafChars(t) ==> code <= codes[c] && IsLeafPath(t, codes[c][|code|..], c)
  {
    assert |code + [0]| == |code + [1]| == |code| + 1;
    forall c | c in LeafChars(t)
      ensures code <= codes[c] && IsLeafPath(t, codes[c][|code|..], c)
    {
      if c in LeafChars(t.right) {
        PathThroughChild(t, code, 1, codes[c], c);
      } else {
        assert c in LeafChars(t.left);
        PathThroughChild(t, code, 0, codes[c], c);
      }
    }
  }

  /** A path that goes down to `bit`'s child after `code` is, after `code`, a path of the node. */
  lemma PathThroughChild(t: Tree, code: seq<Bit>, bit: Bit, p: seq<Bit>, c: Byte)
    requires t.Node?
    requires code + [bit] <= p
    requires IsLeafPath(if bit == 0 then t.left else t.right, p[|code| + 1..], c)
    ensures code <= p && IsLeafPath(t, p[|code|..], c)
  {
    assert p[|code|] == bit;
    assert p[|code|..][1..] == p[|code| + 1..];
  }

  /** The table `main` builds: `assignHuffmanCodes(huffmanTree, "", huffmanCodes)` with an empty map. */
  function HuffmanCodes(root: Tree): CodeTable
  {
    AssignHuffmanCodes(root, [], map[])
  }

  /** Each byte of the tree, and no other, gets a code, and that code is its root-to-leaf path. */
  lemma CodesArePaths(root: Tree)
    ensures HuffmanCodes(root).Keys == LeafChars(root)
    ensures forall c :: c in LeafChars(root) ==> IsLeafPath(root, HuffmanCodes(root)[c], c)
  {
    var codes := HuffmanCodes(root);
    AssignedCodes(root, [], map[]);
    forall c | c in LeafChars(root)
      ensures IsLeafPath(root, codes[c], c)
    {
      assert codes[c][0..] == codes[c];
    }
  }

  /** A lone leaf at the root gets the empty code, not "0". */
  lemma LoneLeafGetsEmptyCode(c: Byte, f: int)
    ensures HuffmanCodes(Leaf(c, f)) == map[c := []]
  {
  }

  /** Two leaf paths of which one extends the other are the same path to the same leaf. */
  lemma {:induction false} LeafPathsNotNested(t: Tree, p: seq<Bit>, c: Byte, q: seq<Bit>, d: Byte)
    requires IsLeafPath(t, p, c) && IsLeafPath(t, q, d)
    requires p <= q
    ensures p == q && c == d
  {
    match t
    case Leaf(_, _) =>
    case Node(_, l, r) =>
      assert p[0] == q[0];
      LeafPathsNotNested(if p[0] == 0 then l else r, p[1..], c, q[1..], d);
      assert p == [p[0]] + p[1..] && q == [q[0]] + q[1..];
  }

  /** The code table is prefix-free: no byte's code is a prefix of another byte's code. */
  lemma PrefixFree(root: Tree, c: Byte, d: Byte)
    requires c in HuffmanCodes(root) && d in HuffmanCodes(root) && c != d
    ensures !(HuffmanCodes(root)[c] <= HuffmanCodes(root)[d])
  {
    CodesArePaths(root);
    var codes := HuffmanCodes(root);
    if codes[c] <= codes[d] {
      LeafPathsNotNested(root, codes[c], c, codes[d], d);
    }
  }

  /** `huffmanCodes[c]`: the code of `c`; `operator[]` yields the empty string for a missing byte. */
  function CodeOf(codes: CodeTable, c: Byte): seq<Bit>
  {
    if c in codes then codes[c] else []
  }

  /** The encoded text: the codes of the text's bytes, concatenated in order. */
  function Encoding(text: seq<Byte>, codes: CodeTable): seq<Bit>
  {
    if text == [] then [] else Encoding(text[..|text| - 1], codes) + CodeOf(codes, text[|text| - 1])
  }

  /** The encoding loop of `main`: `encodedText += huffmanCodes[c]` for every byte of the input. */
  method EncodeText(inputText: seq<Byte>, codes: CodeTable) returns (encodedText: seq<Bit>)
    ensures encodedText == Encoding(inputText, codes)
  {
    encodedText := [];
    for i := 0 to |inputText|
      invariant encodedText == Encoding(inputText[..i], codes)
    {
      assert inputText[..i + 1][..i] == inputText[..i];
      encodedText := encodedText + CodeOf(codes, inputText[i]);
    }
    assert inputText[..|inputText|] == inputText;
  }

  /** The walk of `decodeHuffman` from cursor `cur`: each bit moves to a child (0 left, else right);
      reaching a leaf emits its byte and puts the cursor back at `root`. The walk only ever stands on
      internal nodes, so it needs `root` to be one unless there are no bits (the source dereferences
      a null child otherwise). It emits at most one byte per bit. */
  function Walk(root: Tree, cur: Tree, bits: seq<Bit>): (text: seq<Byte>)
    requires bits == [] || (root.Node? && cur.Node?)
    ensures |text| <= |bits|
    decreases |bits|
  {
    if bits == [] then []
    else
      var next := if bits[0] == 0 then cur.left else cur.right;
      if next.Leaf? then [next.ch] + Walk(root, root, bits[1..])
      else Walk(root, next, bits[1..])
  }

  /** `decodeHuffman(root, encodedText)`: the loop moving `currentNode` and appending to `decodedText`. */
  method DecodeHuffman(root: Tree, encodedText: seq<Bit>) returns (decodedText: seq<Byte>)
    requires root.Node? || encodedText == []
    ensures decodedText == Walk(root, root, encodedText)
    ensures |decodedText| <= |encodedText|
    ensures encodedText == [] ==> decodedText == []
  {
    decodedText := [];
    var currentNode := root;
    for i := 0 to |encodedText|
      invariant encodedText != [] ==> currentNode.Node?
      invariant decodedText + Walk(root, currentNode, encodedText[i..]) == Walk(root, root, encodedText)
    {
      var bit := encodedText[i];
      WalkStep(root, currentNode, encodedText[i..]);
      assert encodedText[i..][1..] == encodedText[i + 1..];
      if bit == 0 {
        currentNode := currentNode.left;
      } else {
        currentNode := currentNode.right;
      }
      if currentNode.Leaf? {
        decodedText := decodedText + [currentNode.ch];
        currentNode := root;
      }
    }
    assert decodedText + Walk(root, currentNode, []) == decodedText;
  }

  /** One bit of the walk: move to a child; a leaf emits its byte and resets the cursor. */
  lemma WalkStep(root: Tree, cur: Tree, bits: seq<Bit>)
    requires bits != [] && root.Node? && cur.Node?
    ensures var next := if bits[0] == 0 then cur.left else cur.right;
            && (next.Leaf? ==> forall prefix :: prefix + Walk(root, cur, bits) == (prefix + [next.ch]) + Walk(root, root, bits[1..]))
            && (next.Node? ==> Walk(root, cur, bits) == Walk(root, next, bits[1..]))
  {
  }

  /** Walking a leaf's full path from an internal cursor emits that leaf's byte and resets the cursor. */
  lemma {:induction false} WalkCode(root: Tree, cur: Tree, p: seq<Bit>, c: Byte, rest: seq<Bit>)
    requires root.Node? && cur.Node?
    requires IsLeafPath(cur, p, c)
    ensures Walk(root, cur, p + rest) == [c] + Walk(root, root, rest)
  {
    var next := if p[0] == 0 then cur.left else cur.right;
    assert (p + rest)[1..] == p[1..] + rest;
    if next.Node? {
      WalkCode(root, next, p[1..], c, rest);
    }
  }

  /** Decoding the concatenated leaf paths of a text gives back the text, whatever bits follow. */
  lemma {:induction false} WalkEncoding(root: Tree, text: seq<Byte>, codes: CodeTable, rest: seq<Bit>)
    requires root.Node?
    requires forall c :: c in text ==> c in codes && IsLeafPath(root, codes[c], c)
    ensures Walk(root, root, Encoding(text, codes) + rest) == text + Walk(root, root, rest)
  {
    if text != [] {
      var init, last := text[..|text| - 1], text[|text| - 1];
      assert last in text;
      forall c | c in init
        ensures c in codes && IsLeafPath(root, codes[c], c)
      {
        assert c in text;
      }
      calc {
        Walk(root, root, Encoding(text, codes) + rest);
        { assert Encoding(text, codes) + rest == Encoding(init, codes) + (codes[last] + rest); }
        Walk(root, root, Encoding(init, codes) + (codes[last] + rest));
        { WalkEncoding(root, init, codes, codes[last] + rest); }
        init + Walk(root, root, codes[last] + rest);
        { WalkCode(root, root, codes[last], last, rest); }
        init + ([last] + Walk(root, root, rest));
        { assert text == init + [last]; }
        text + Walk(root, root, rest);
      }
    } else {
      assert Encoding(text, codes) + rest == rest;
    }
  }

  /** Round trip: for a tree whose root is an internal node, decoding the encoding of a text made of
      the tree's bytes gives the text back; followed by further bits, the text is a prefix of the output. */
  lemma DecodeEncoding(root: Tree, text: seq<Byte>, rest: seq<Bit>)
    requires root.Node?
    requires forall c :: c in text ==> c in LeafChars(root)
    ensures Walk(root, root, Encoding(text, HuffmanCodes(root))) == text
    ensures Walk(root, root, Encoding(text, HuffmanCodes(root)) + rest) == text + Walk(root, root, rest)
  {
    CodesArePaths(root);
    WalkEncoding(root, text, HuffmanCodes(root), rest);
    WalkEncoding(root, text, HuffmanCodes(root), []);
    assert Encoding(text, HuffmanCodes(root)) + [] == Encoding(text, HuffmanCodes(root));
  }

  /** When every byte of the text has the empty code (the lone-leaf case), the encoding is empty. */
  lemma {:induction false} EncodingOfEmptyCodes(text: seq<Byte>, codes: CodeTable)
    requires forall c :: c in text ==> CodeOf(codes, c) == []
    ensures Encoding(text, codes) == []
  {
    if text != [] {
      assert text[|text| - 1] in text;
      forall c | c in text[..|text| - 1]
        ensures CodeOf(codes, c) == []
      {
        assert c in text;
      }
      EncodingOfEmptyCodes(text[..|text| - 1], codes);
    }
  }
}
