# Huffman and LZ77 codecs, modelled in Dafny

This project models the two whole-buffer lossless codecs of the repository and proves properties
of them. The first is the Huffman coder of `Huffman_alpha.cpp`:

- frequency counting;
- tree construction `BHT` over a min-heap;
- code assignment `assignHuffmanCodes`;
- encoding by code concatenation;
- bit packing `writeBits` and unpacking `readBits`;
- the tree-walking decoder `decodeHuffman`.

The second is the LZ77 coder of `LZ77v1.cpp`:

- the sliding-window match search `findLongestMatch`;
- the encode loop of `main`;
- the decompressor `descomprimir`.

The model follows the C++ code as written, including the edge cases where it is not an exact
round trip:

- The Huffman decoder walks the zero padding of the last byte like data. It can emit up to 7
  extra bytes after the text.
- A text with a single distinct byte gets the empty code. Nothing is written for it, and nothing
  is decoded.
- An LZ77 match that runs to the end of the input carries a `'\0'` as its next byte. The
  decompressor appends that byte to the output.

Files:

- `bytes.dfy` (`Bytes`): the byte and bit types shared by both codecs.
- `huffman_tree.dfy` (`HuffmanTree`): the tree, the frequency table, frequency counting and `BHT`. The
  priority queue is a sequence, and a pop takes *some* node of least count.
- `huffman_codes.dfy` (`HuffmanCoding`): code assignment, encoding, and the decoder with its
  round-trip lemmas.
- `bit_packing.dfy` (`BitPacking`): `writeBits` and `readBits` over byte sequences, and the
  packing round trip.
- `huffman_codec.dfy` (`HuffmanCodec`): the Huffman pipeline of `main`, from the input bytes to
  the decoded text.
- `lz77.dfy` (`LZ77`): tokens with the C++ field widths, the match search, the decompressor, the
  encode loop (its tokens are exactly the longest-match tokens at the positions it reaches, so
  there is one token sequence per input) and the LZ77 pipeline of `main`.

Where the specification of the system and the code differ, the model follows the code:

- **Single symbol.** The specification gives a single distinct byte the code "0". The code gives
  it the empty code, because `assignHuffmanCodes` records `code` at a leaf root with `code == ""`.
  Its encoding is therefore empty, and decoding returns the empty text.
- **Heap tie-break.** The specification asks for a deterministic, stable tie-break in the heap.
  `std::priority_queue` with `Compare` promises no order among equal counts. The model leaves
  that choice open, and every property is proved for all choices.
- **LZ77 tie-break.** The specification says that among equal-length matches the smallest offset
  is kept. The scan runs over ascending `i` and replaces only on a strictly longer match, so the
  oldest start, the *largest* offset, is kept. `IsLongestMatch` states the code's rule.
- **Token field widths.** The specification describes unsigned 16-bit offsets and unsigned 8-bit
  lengths. The code stores `short` and `char`, narrowed by `static_cast`, and both are modelled
  as signed.
- **Errors.** The specification's typed errors (empty input, corrupt stream, invalid offset) do not
  exist in the code. Where the code has undefined behaviour instead, the model states the
  condition as a precondition:
  - an empty heap;
  - a leaf root with bits left to decode;
  - a back-reference beyond the output.
- **Round trips.** The specification promises exact round trips. The code does not give them:
  - Huffman decoding gives the text followed by at most 7 padding-decoded bytes;
  - LZ77 decompression gives the input followed by a `'\0'` exactly when the last token's match
    reaches the end of the input.

## Model

| member | source | states |
|---|---|---|
| HuffmanTree.CountFrequencies | Huffman_alpha.cpp:143-146 | the table holds exactly the bytes of the text, each with its number of occurrences (positive), and the counts sum to the text's length |
| HuffmanTree.CountStep | Huffman_alpha.cpp:144-146 | `freqMap[c]++` keeps the table's keys the bytes read so far, each counted by its occurrences, and its total the number of bytes read |
| HuffmanTree.PopMin | Huffman_alpha.cpp:39-42 | `top()`+`pop()`: removes exactly one node, whose count is no greater than any node in the queue; the rest is the queue without that node (as a multiset), and leaves and total count split between the node and the rest |
| HuffmanTree.PushLeaves | Huffman_alpha.cpp:32-34 | the queue holds one leaf per table entry: its leaves are exactly the table's (byte, count) pairs and its total is the table's total |
| HuffmanTree.MergeTwo | Huffman_alpha.cpp:37-51 | the new queue is the old one without a least-count node `l` and a least-count node `r` of the rest, followed by their parent with `l` on the left and the sum of their counts; it is one shorter, keeps every tree's internal counts the sums of its children's with the left child no heavier, and keeps the leaves and the total |
| HuffmanTree.PoppedTwo | Huffman_alpha.cpp:39-42 | two pops remove exactly the two popped nodes from the queue |
| HuffmanTree.MergedShapes | Huffman_alpha.cpp:39-50 | pushing the sum node of the two popped least-count trees keeps every queued tree's internal counts the sums of its children's, first-popped child no heavier |
| HuffmanTree.MergedForest | Huffman_alpha.cpp:45-50 | pushing the sum node keeps the queue's leaves and total count: those of the rest plus both popped trees |
| HuffmanTree.BuildHuffmanTree | Huffman_alpha.cpp:28-55 | for a non-empty table, the root's leaves are exactly the table's entries, every internal count is the sum of its children's (left no heavier than right), and the root counts the table's total |
| HuffmanTree.LeafCharsAreKeys | Huffman_alpha.cpp:32-34 | a tree built from a table holds exactly the table's bytes |
| HuffmanTree.TwoKeysGiveNode | Huffman_alpha.cpp:37-51 | a table with two distinct bytes yields an internal root |
| HuffmanTree.OneKeyGivesLeaf | Huffman_alpha.cpp:32-37 | a table with one byte yields the single leaf of that byte as the root (the loop does not run) |
| HuffmanTree.LeavesSize | Huffman_alpha.cpp:45-47 | every internal node has two non-empty subtrees, so at least two leaves |
| HuffmanCoding.AssignHuffmanCodes | Huffman_alpha.cpp:58-68 | the table afterwards has an entry for every key it had before and for every byte of the tree, and no other |
| HuffmanCoding.AssignedCodes | Huffman_alpha.cpp:58-68 | entries for bytes outside the tree are kept; each byte of the tree gets the current code followed by its root-to-leaf path (0 left, 1 right) |
| HuffmanCoding.CodesArePaths | Huffman_alpha.cpp:58-68 | the table built from an empty code and an empty map has exactly the tree's bytes as keys, each mapped to its path from the root |
| HuffmanCoding.LoneLeafGetsEmptyCode | Huffman_alpha.cpp:61-62 | a lone leaf at the root gets the empty code |
| HuffmanCoding.LeafPathsNotNested | Huffman_alpha.cpp:58-68 | one leaf path extending another is the same path to the same leaf |
| HuffmanCoding.PrefixFree | Huffman_alpha.cpp:58-68 | no byte's code is a prefix of another byte's code |
| HuffmanCoding.EncodeText | Huffman_alpha.cpp:157-160 | the encoded text is the concatenation of the bytes' codes in text order, a missing byte contributing the empty code of `operator[]` |
| HuffmanCoding.Walk | Huffman_alpha.cpp:117-126 | the walk needs an internal root when there are bits, and emits at most one byte per bit |
| HuffmanCoding.DecodeHuffman | Huffman_alpha.cpp:113-130 | needs an internal root unless there are no bits (null child otherwise); returns the walk of the bits, at most one byte per bit, and nothing for no bits |
| HuffmanCoding.WalkStep | Huffman_alpha.cpp:118-125 | one bit moves the cursor to the left child on 0 and the right child otherwise; reaching a leaf emits its byte and resets the cursor to the root |
| HuffmanCoding.WalkCode | Huffman_alpha.cpp:117-126 | walking a leaf's path emits its byte and resets the cursor to the root |
| HuffmanCoding.WalkEncoding | Huffman_alpha.cpp:117-126 | walking a concatenation of leaf paths gives back the bytes, whatever bits follow |
| HuffmanCoding.DecodeEncoding | Huffman_alpha.cpp:113-130 | for an internal root, decoding the encoding of a text of the tree's bytes gives the text; with bits appended, the text is a prefix of the output |
| HuffmanCoding.EncodingOfEmptyCodes | Huffman_alpha.cpp:157-160 | a text whose bytes all have the empty code encodes to the empty bit string |
| BitPacking.WriteBits | Huffman_alpha.cpp:79-98 | emits ceil(n/8) bytes, byte k holding bits 8k..8k+7 most significant first with the last byte zero-filled, so unpacking gives the bits followed by the zero padding |
| BitPacking.ShiftInBits | Huffman_alpha.cpp:83-92 | after the loop, fewer than 8 bits remain in the buffer, holding the value of the unemitted tail, and every emitted byte is a packed byte |
| BitPacking.LastBytePacked | Huffman_alpha.cpp:94-97 | shifting the partial buffer left by `8 - bitCount` gives the zero-filled last byte, which fits in a byte |
| BitPacking.ReadBits | Huffman_alpha.cpp:101-110 | the bits are the unpacking of the bytes: byte k yields bits 8k..8k+7, most significant first |
| BitPacking.UnpackPacked | Huffman_alpha.cpp:84-106 | `readBits(writeBits(s))` is `s` followed by zero bits up to the next multiple of 8 |
| BitPacking.PackUnpacked | Huffman_alpha.cpp:84-106 | the bits read from any bytes need no padding and pack back to the same bytes |
| BitPacking.ValueOfBitsOf | Huffman_alpha.cpp:106 | `bitset<8>(byte).to_string()` read back as a number is the byte |
| BitPacking.BitsOfValue | Huffman_alpha.cpp:84 | shifting bits in and writing the number out in binary gives the bits back |
| BitPacking.ValueZeros | Huffman_alpha.cpp:95 | shifting left by n is appending n zero bits |
| HuffmanCodec.CompressAndRestore | Huffman_alpha.cpp:143-171 | the root counts the whole input; with two or more distinct bytes the root is internal and the decoded text is the input followed by at most 7 bytes; with one distinct byte nothing is written and nothing decoded |
| LZ77.ToInt16 | LZ77v1.cpp:37 | `static_cast<short>` wraps modulo 2^16 and keeps values that fit |
| LZ77.ToInt8 | LZ77v1.cpp:37 | `static_cast<char>` wraps modulo 2^8 into a signed char and keeps values that fit |
| LZ77.IsMatchShorter | LZ77v1.cpp:22-23 | every prefix of a match is a match |
| LZ77.LongestMatchUnique | LZ77v1.cpp:20-34 | the search's result is determined: two longest matches with the oldest-start tie-break agree in offset, length and next byte |
| LZ77.FindLongestMatch | LZ77v1.cpp:15-38 | the token is the narrowing of (offset, length, next): a genuine match starting in the window, none in the window longer, the oldest start among equal lengths; offset and length 0 when there is none; next the byte after the match or '\0' at the end; at position 0 it is (0, 0, input[0]) |
| LZ77.SearchStep | LZ77v1.cpp:20-34 | one start of the outer loop keeps the search's state: the longest match among the starts tried so far, at the oldest of them, with its next byte; a strictly longer match replaces it |
| LZ77.ExtendMatch | LZ77v1.cpp:21-24 | the inner loop stops at the longest match from `i`: it is a match and no longer one is |
| LZ77.BackCopy | LZ77v1.cpp:48-51 | the copy appends exactly as many bytes as requested |
| LZ77.BackCopyRepeats | LZ77v1.cpp:48-51 | within reach, every copied byte equals the byte `offset` positions before it, so overlapping copies re-read bytes the token just appended |
| LZ77.BackCopyFromZeroOffset | LZ77v1.cpp:48-50 | a copy with offset 0 reads the string's terminator each time and appends zero bytes |
| LZ77.Expand | LZ77v1.cpp:44-53 | one token grows the output by exactly its positive length plus one, keeping the output before it and ending in `next` |
| LZ77.ExpandToken | LZ77v1.cpp:45-53 | the body of the token loop produces the token's expansion when the token's reads stay within the output or its terminator |
| LZ77.Decompress | LZ77v1.cpp:41-57 | for tokens whose back-references stay within the output, returns their replay |
| LZ77.ReplayPrefix | LZ77v1.cpp:44-54 | a prefix of a replayable token sequence replays to a prefix of the output |
| LZ77.ReplayLast | LZ77v1.cpp:44-54 | the output of a replayable token sequence is the output of all tokens but the last, expanded by the last token, which fits |
| LZ77.ReplayAppend | LZ77v1.cpp:44-54 | replaying one more fitting token extends the output by that token's expansion |
| LZ77.MatchCopied | LZ77v1.cpp:22-23 | replaying a genuine match after the input before `pos` copies exactly the matched bytes of the input |
| LZ77.MatchReproduces | LZ77v1.cpp:29-33 | a longest match and its next byte reproduce the input up to just past the match, or the input and a '\0' when the match reaches the end |
| LZ77.ExpandReproduces | LZ77v1.cpp:37 | when no match reaches 128 and the window is below 32768, narrowing changes nothing: the token has the match's length and offset, fits the output, and reproduces the input as far as it goes |
| LZ77.EncodeStep | LZ77v1.cpp:73-77 | one step of the encode loop keeps the replay equal to the input before `pos`, or to the input and a '\0' once the last match has reached the end |
| LZ77.EncodedAll | LZ77v1.cpp:73 | on loop exit the replay is the input, or the input and a '\0' exactly when the last match reached the end |
| LZ77.LongestMatchTokenUnique | LZ77v1.cpp:15-38 | at a given position there is one longest-match token: two tokens that both narrow the longest match there are equal |
| LZ77.GreedyStep | LZ77v1.cpp:73-77 | appending the longest-match token at the position the loop's tokens reach, and advancing by its length plus one, gives the loop's tokens again |
| LZ77.GreedyEnd | LZ77v1.cpp:76 | the loop's tokens leave `pos` at the sum of `length + 1` over them |
| LZ77.GreedyAt | LZ77v1.cpp:73-77 | each of the loop's tokens starts inside the input, at the sum of `length + 1` over the tokens before it, and is the longest-match token there |
| LZ77.GreedyPrefix | LZ77v1.cpp:73-77 | two token sequences that are both the loop's agree on their common prefix |
| LZ77.GreedyDeterministic | LZ77v1.cpp:73-77 | the loop computes one token sequence only: two sequences that are both the loop's and both reach the end of the input are equal |
| LZ77.Compress | LZ77v1.cpp:69-77 | under the length and window bounds, the loop terminates; each token is the longest-match token at the position the tokens before it reach (`pos += length + 1` from 0), and that position is past the end only after the last token; the tokens replay, their offsets lie within the window and lengths are non-negative; they replay to the input, or to the input and the '\0' next byte exactly when the last match reaches the end |
| LZ77.CompressAndRestore | LZ77v1.cpp:69-102 | with a 4096-byte window, the tokens are the loop's longest-match tokens as for `Compress`, and decompressing them gives the input, or the input and a '\0' exactly when the last match reaches the end |

## Left out

- File reading and writing, `reinterpret_cast` token serialisation, `chrono` timing and console output are left out. `writeBits` and `readBits` work on byte sequences instead of streams. The LZ77 tokens go straight from the encode loop to the decompressor, without the binary file in between.
- `FHT` (freeing the tree) is left out: the tree is a value, and there is no memory to free.
- The `Node*` pointers become an algebraic datatype. The model does not capture heap allocation, sharing, or the null-children test of `assignHuffmanCodes`; a leaf is its own datatype case.
- Frequencies are unbounded integers. The model does not capture `int` overflow: an internal node's count is the sum of its leaves' counts (`left->frecuencia + right->frecuencia`), and the root's count is the input length, so counts overflow once the input has more than 2^31-1 bytes, even when no single byte occurs that often. HuffmanCodec.CompressAndRestore's `huffmanTree.freq == |inputText|` holds only for inputs up to that size.
- `char` is modelled by its unsigned value 0..255. `map<char,int>` iterates in signed-`char` order, so leaves are pushed in a different order than the model's ascending one. Because a pop may take any least-count node, nothing proved depends on push order.
- Code bits are the numbers 0 and 1, not the characters '0' and '1'. `decodeHuffman` sends every non-'0' character right; only '0' and '1' occur.
- HuffmanTree.PopMin: leaves open which least-count node `std::priority_queue` returns. The proved properties hold for every choice, but the model does not pin down the tree the real heap builds.
- HuffmanTree.BuildHuffmanTree: requires a non-empty table. `minHeap.top()` on an empty queue (empty input) is undefined behaviour.
- HuffmanCodec.CompressAndRestore: requires a non-empty input, for the same reason.
- HuffmanCoding.DecodeHuffman: requires an internal root unless there are no bits. With a leaf root and bits left, the source dereferences a null child.
- LZ77.Decompress: requires every back-reference to stay within the output or its terminator. A larger offset, or a negative offset with a positive length, is an out-of-range `operator[]`.
- LZ77.Compress: requires a window below 32768 bytes and no match of 128 bytes or more. `static_cast<char>` wraps a longer match length L modulo 256 into -128..127, and `pos += length + 1` adds the wrapped value to the `size_t` position. The model does not capture the outcomes. A wrapped length of -1 (L = 255) leaves `pos` where it is, and the loop never ends. Any other negative wrapped length moves `pos` backwards, or, when the step back exceeds `pos`, wraps it past the end of the input and ends the loop. A wrapped length of 0..127 (L = 256..383) advances `pos` by L - 255: the token copies L - 256 bytes and then appends its next byte, `input[pos+L]` (or `'\0'`), where `input[pos+L-256]` belongs. The output keeps the length of the consumed input, but with that byte substituted. At the new position the same match, shifted, is still at least 255 bytes long, so the loop then stalls, wraps again or moves back, and never reaches the end of the input by advancing. The `short` offset narrowing is modelled (`ToInt16`), but it is the identity under these bounds.
- HuffmanCoding.CodeOf: `huffmanCodes[c]` inserts an empty entry for a byte that is not a key; the model reads the empty code and leaves the table unchanged. In the pipeline every byte of the input is a key, so the insertion never happens there.
- LZ77.CompressAndRestore: requires no match of 128 bytes or more within the 4096-byte window, for the same reason.
- LZ77.FindLongestMatch: assumes a signed `char`. On a platform with unsigned `char`, `length` wraps modulo 256 into 0..255 instead.
