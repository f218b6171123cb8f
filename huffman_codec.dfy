/**
 * The Huffman pipeline of `main`, without its file I/O and timing: count, build the tree,
 * assign codes, encode, pack, unpack, decode with the same in-memory tree.
 */
module HuffmanCodec {
  import opened Bytes
  import opened HuffmanTree
  import opened HuffmanCoding
  import opened BitPacking

  /** Every byte of the text is the same byte. */
  predicate SingleSymbol(text: seq<Byte>)
  {
    forall i :: 0 <= i < |text| ==> text[i] == text[0]
  }

  /** `main` from frequency counting to `decodeHuffman`. The root counts the whole input. With two or
      more distinct bytes the tree has an internal root, and the decoded text is the input followed
      by at most 7 spurious bytes decoded from the zero padding. With a single distinct byte the tree
      is a lone leaf whose code is empty: nothing is written and nothing is decoded. */
  method CompressAndRestore(inputText: seq<Byte>) returns (huffmanTree: Tree, packed: seq<Byte>, decodedText: seq<Byte>)
    requires inputText != []
    ensures huffmanTree.freq == |inputText|
    ensures SingleSymbol(inputText) ==> huffmanTree.Leaf? && packed == [] && decodedText == []
    ensures !SingleSymbol(inputText) ==>
              huffmanTree.Node? && inputText <= decodedText && |decodedText| < |inputText| + 8
  {
    var freqMap := CountFrequencies(inputText);
    assert inputText[0] in freqMap;
    huffmanTree := BuildHuffmanTree(freqMap);
    LeafCharsAreKeys(huffmanTree, freqMap);
    var huffmanCodes := HuffmanCodes(huffmanTree);
    var encodedText := EncodeText(inputText, huffmanCodes);
    if SingleSymbol(inputText) {
      assert freqMap.Keys == {inputText[0]};
      OneKeyGivesLeaf(huffmanTree, freqMap, inputText[0]);
      LoneLeafGetsEmptyCode(inputText[0], freqMap[inputText[0]]);
      EncodingOfEmptyCodes(inputText, huffmanCodes);
    } else {
      var j :| 0 <= j < |inputText| && inputText[j] != inputText[0];
      TwoKeysGiveNode(huffmanTree, freqMap, inputText[0], inputText[j]);
    }
    packed := WriteBits(encodedText);
    var encodedStr := ReadBits(packed);
    decodedText := DecodeHuffman(huffmanTree, encodedStr);
    if !SingleSymbol(inputText) {
      var padding := Zeros(PadLength(|encodedText|));
      assert encodedStr == Encoding(inputText, huffmanCodes) + padding;
      DecodeEncoding(huffmanTree, inputText, padding);
    }
  }
}
