/**
 * The LZ77 coder: the sliding-window match search (`findLongestMatch`), the encode loop of `main`,
 * and the decompressor (`descomprimir`). A token's fields keep the C++ widths: `offset` is a
 * `short`, `length` a signed `char`, and both are narrowed from the search's `size_t` values.
 */
module LZ77 {
  import opened Bytes

  datatype Option<T> = None | Some(value: T)

  /** The values of a C++ `short`. */
  type Int16 = x: int | -32768 <= x < 32768

  /** The values of a signed C++ `char`. */
  type Int8 = x: int | -128 <= x < 128

  /** `LZ77Token`: copy `length` bytes from `offset` bytes back, then append `next`. */
  datatype Token = Token(offset: Int16, length: Int8, next: Byte)

  /** `static_cast<short>`: two's-complement wrap-around to 16 bits. */
  function ToInt16(x: int): (r: Int16)
    ensures (r - x) % 65536 == 0
    ensures -32768 <= x < 32768 ==> r == x
  {
    (x + 32768) % 65536 - 32768
  }

  /** `static_cast<char>` to a signed `char`: two's-complement wrap-around to 8 bits. */
  function ToInt8(x: int): (r: Int8)
    ensures (r - x) % 256 == 0
    ensures -128 <= x < 128 ==> r == x
  {
    (x + 128) % 256 - 128
  }

  /** The first position of the search window of `currentPos`. */
  function WindowStart(currentPos: nat, windowSize: nat): nat
  {
    if currentPos > windowSize then currentPos - windowSize else 0
  }

  /** `s[p]` for a `std::string`: at and past the end it reads the terminating '\0'. */
  function ByteAt(s: seq<Byte>, p: int): Byte
  {
    if 0 <= p < |s| then s[p] else 0
  }

  /** The `k` bytes from `pos` repeat the `k` bytes from the earlier position `i`; the two runs may
      overlap, and the run from `pos` ends inside the input. */
  ghost predicate IsMatch(input: seq<Byte>, i: nat, pos: nat, k: nat)
  {
    i <= pos && pos + k <= |input| && input[i..i + k] == input[pos..pos + k]
  }

  /** Every prefix of a match is a match. */
  lemma IsMatchShorter(input: seq<Byte>, i: nat, pos: nat, k: nat, k': nat)
    requires IsMatch(input, i, pos, k) && k' <= k
    ensures IsMatch(input, i, pos, k')
  {
    assert input[i..i + k'] == input[i..i + k][..k'];
    assert input[pos..pos + k'] == input[pos..pos + k][..k'];
  }

  /** What `findLongestMatch` computes before narrowing, at `pos` with window `windowSize`:
      `len` is the longest match starting in the window (0 when there is none), found at the oldest
      start reaching that length, `off` bytes back (0 when `len` is 0), and `next` is the byte after
      the match ('\0' when the match reaches the end of the input). */
  ghost predicate IsLongestMatch(input: seq<Byte>, pos: nat, windowSize: nat, off: nat, len: nat, next: Byte)
  {
    && (len == 0 ==> off == 0)
    && (len > 0 ==> 1 <= off && WindowStart(pos, windowSize) + off <= pos && IsMatch(input, pos - off, pos, len))
    && next == ByteAt(input, pos + len)
    && (forall i, k: nat :: WindowStart(pos, windowSize) <= i < pos && IsMatch(input, i, pos, k) ==> k <= len)
    && (len > 0 ==> forall i :: WindowStart(pos, windowSize) <= i < pos - off ==> !IsMatch(input, i, pos, len))
  }

  /** The longest match is determined by its position: its length, offset and next byte are unique. */
  lemma LongestMatchUnique(input: seq<Byte>, pos: nat, windowSize: nat,
                           off: nat, len: nat, next: Byte, off': nat, len': nat, next': Byte)
    requires IsLongestMatch(input, pos, windowSize, off, len, next)
    requires IsLongestMatch(input, pos, windowSize, off', len', next')
    ensures off == off' && len == len' && next == next'
  {
    if len > 0 && len' > 0 {
      assert len == len';
    }
  }

  /** `token` holds the longest match at `pos`, its offset and length narrowed to the field widths. */
  ghost predicate IsLongestMatchToken(input: seq<Byte>, pos: nat, windowSize: nat, token: Token)
  {
    exists off: nat, len: nat :: IsLongestMatch(input, pos, windowSize, off, len, token.next)
                                 && token.offset == ToInt16(off) && token.length == ToInt8(len)
  }

  /** The state of `findLongestMatch` after trying the starts `start` to `i - 1`: `len` is the longest
      match from those starts, found at the oldest of them, `off` bytes back, and `next` the byte
      after it. */
  ghost predicate SearchedUpTo(input: seq<Byte>, currentPos: nat, start: nat, i: nat, len: nat, off: nat, next: Byte)
  {
    && (len == 0 ==> off == 0)
    && (len > 0 ==> 1 <= off && start + off <= currentPos && currentPos - off < i
                    && IsMatch(input, currentPos - off, currentPos, len))
    && next == ByteAt(input, currentPos + len)
    && (forall i', k: nat :: start <= i' < i && IsMatch(input, i', currentPos, k) ==> k <= len)
    && (len > 0 ==> forall i' :: start <= i' < currentPos - off ==> !IsMatch(input, i', currentPos, len))
  }

  /** One start of the search: a strictly longer match from `i` replaces the one kept so far.
      Kept apart from `FindLongestMatch`: alone the step is cheap, inside the loop body it is costly. */
  lemma SearchStep(input: seq<Byte>, currentPos: nat, start: nat, i: nat, len: nat, off: nat, next: Byte,
                   matchLength: nat, len': nat, off': nat, next': Byte)
    requires start <= i < currentPos <= |input|
    requires SearchedUpTo(input, currentPos, start, i, len, off, next)
    requires IsMatch(input, i, currentPos, matchLength)
    requires forall k: nat :: IsMatch(input, i, currentPos, k) ==> k <= matchLength
    requires matchLength > len ==>
               len' == matchLength && off' == currentPos - i && next' == ByteAt(input, currentPos + matchLength)
    requires matchLength <= len ==> len' == len && off' == off && next' == next
    ensures SearchedUpTo(input, currentPos, start, i + 1, len', off', next')
  {
  }

  /** `findLongestMatch`: tries every start `i` of the window in ascending order, extends the match
      from `i` as far as the input allows, and keeps a strictly longer one. The token is the longest
      match narrowed to the token's field widths. */
  method FindLongestMatch(input: seq<Byte>, currentPos: nat, windowSize: nat) returns (token: Token)
    requires currentPos <= |input|
    ensures IsLongestMatchToken(input, currentPos, windowSize, token)
    ensures currentPos == 0 ==> token == Token(0, 0, ByteAt(input, 0))
  {
    var maxMatchLength: nat := 0;
    var matchOffset: nat := 0;
    var nextChar := ByteAt(input, currentPos);
    var start := WindowStart(currentPos, windowSize);
    for i := start to currentPos
      invariant SearchedUpTo(input, currentPos, start, i, maxMatchLength, matchOffset, nextChar)
    {
      var matchLength := ExtendMatch(input, i, currentPos);
      ghost var len, off, next := maxMatchLength, matchOffset, nextChar;
      if matchLength > maxMatchLength {
        maxMatchLength := matchLength;
        matchOffset := currentPos - i;
        if currentPos + matchLength < |input| {
          nextChar := input[currentPos + matchLength];
        } else {
          nextChar := 0;
        }
      }
      SearchStep(input, currentPos, start, i, len, off, next, matchLength, maxMatchLength, matchOffset, nextChar);
    }
    token := Token(ToInt16(matchOffset), ToInt8(maxMatchLength), nextChar);
    assert IsLongestMatch(input, currentPos, windowSize, matchOffset, maxMatchLength, token.next);
  }

  /** The inner `while` of `findLongestMatch`: the length of the match from `i`, as long as it goes. */
  method ExtendMatch(input: seq<Byte>, i: nat, currentPos: nat) returns (matchLength: nat)
    requires i < currentPos <= |input|
    ensures IsMatch(input, i, currentPos, matchLength)
    ensures forall k: nat :: IsMatch(input, i, currentPos, k) ==> k <= matchLength
  {
    matchLength := 0;
    while currentPos + matchLength < |input| && input[i + matchLength] == input[currentPos + matchLength]
      invariant IsMatch(input, i, currentPos, matchLength)
      decreases |input| - matchLength
    {
      assert input[i..i + matchLength + 1] == input[i..i + matchLength] + [input[i + matchLength]];
      assert input[currentPos..currentPos + matchLength + 1]
          == input[currentPos..currentPos + matchLength] + [input[currentPos + matchLength]];
      matchLength := matchLength + 1;
    }
    forall k: nat | IsMatch(input, i, currentPos, k)
      ensures k <= matchLength
    {
      if k > matchLength {
        IsMatchShorter(input, i, currentPos, k, matchLength + 1);
      }
    }
  }

  /** The bytes a back-reference copies: byte `j` is read from `startPos + j`, `startPos` being
      `offset` bytes before the end of `out`, in the output as it has grown so far. */
  function BackCopy(out: seq<Byte>, offset: int, n: nat): (copy: seq<Byte>)
    ensures |copy| == n
  {
    if n == 0 then []
    else
      var copy := BackCopy(out, offset, n - 1);
      copy + [ByteAt(out + copy, |out| - offset + n - 1)]
  }

  /** Copies within reach are periodic: every copied byte repeats the byte `offset` positions
      earlier, so an overlapping copy repeats the last `offset` bytes of `out`. */
  lemma {:induction false} BackCopyRepeats(out: seq<Byte>, offset: int, n: nat, j: nat)
    requires 1 <= offset <= |out| && j < n
    ensures (out + BackCopy(out, offset, n))[|out| + j] == (out + BackCopy(out, offset, n))[|out| + j - offset]
  {
    var prev := BackCopy(out, offset, n - 1);
    if j < n - 1 {
      BackCopyRepeats(out, offset, n - 1, j);
      assert (out + BackCopy(out, offset, n))[..|out| + n - 1] == out + prev;
    } else {
      assert (out + BackCopy(out, offset, n))[..|out| + n - 1] == out + prev;
    }
  }

  /** A copy from offset 0 reads the string's terminator every time: it appends zero bytes. */
  lemma {:induction false} BackCopyFromZeroOffset(out: seq<Byte>, n: nat)
    ensures forall j :: 0 <= j < n ==> BackCopy(out, 0, n)[j] == 0
  {
    if n > 0 {
      BackCopyFromZeroOffset(out, n - 1);
    }
  }

  /** The number of bytes a token copies: the loop `i < token.length` runs no time for length <= 0. */
  function Copies(t: Token): nat
  {
    if t.length > 0 then t.length else 0
  }

  /** The decompressor reads only bytes of the output or its terminator: a copying token's offset
      lies between 0 and the output's length. */
  predicate Fits(out: seq<Byte>, t: Token)
  {
    t.length <= 0 || 0 <= t.offset <= |out|
  }

  /** The output after one token of `descomprimir`. It grows by exactly the copied bytes and `next`. */
  function Expand(out: seq<Byte>, t: Token): (r: seq<Byte>)
    ensures |r| == |out| + Copies(t) + 1
    ensures out <= r && r[|r| - 1] == t.next
  {
    if t.offset == 0 && t.length == 0 then out + [t.next]
    else out + BackCopy(out, t.offset, Copies(t)) + [t.next]
  }

  /** The output of `descomprimir` on a token sequence, or None if a token reaches outside it. */
  function Replay(tokens: seq<Token>): Option<seq<Byte>>
  {
    if tokens == [] then Some([])
    else
      match Replay(tokens[..|tokens| - 1])
      case None => None
      case Some(out) =>
        var t := tokens[|tokens| - 1];
        if Fits(out, t) then Some(Expand(out, t)) else None
  }

  /** Every prefix of a replayable token sequence replays to a prefix of its output. */
  lemma {:induction false} ReplayPrefix(tokens: seq<Token>, k: nat)
    requires k <= |tokens| && Replay(tokens).Some?
    ensures Replay(tokens[..k]).Some? && Replay(tokens[..k]).value <= Replay(tokens).value
  {
    if k < |tokens| {
      var init := tokens[..|tokens| - 1];
      ReplayPrefix(init, k);
      assert init[..k] == tokens[..k];
    } else {
      assert tokens[..k] == tokens;
    }
  }

  /** In a replayable token sequence, the last token fits the output of the others and expands it. */
  lemma ReplayLast(tokens: seq<Token>)
    requires tokens != [] && Replay(tokens).Some?
    ensures Replay(tokens[..|tokens| - 1]).Some?
    ensures Fits(Replay(tokens[..|tokens| - 1]).value, tokens[|tokens| - 1])
    ensures Replay(tokens).value == Expand(Replay(tokens[..|tokens| - 1]).value, tokens[|tokens| - 1])
  {
  }

  /** Replaying one more token that fits extends the output by that token. */
  lemma ReplayAppend(tokens: seq<Token>, t: Token)
    requires Replay(tokens).Some? && Fits(Replay(tokens).value, t)
    ensures Replay(tokens + [t]) == Some(Expand(Replay(tokens).value, t))
  {
    assert (tokens + [t])[..|tokens|] == tokens;
  }

  /** `descomprimir`: expands the tokens one after the other into the output. */
  method Decompress(tokens: seq<Token>) returns (output: seq<Byte>)
    requires Replay(tokens).Some?
    ensures output == Replay(tokens).value
  {
    output := [];
    for k := 0 to |tokens|
      invariant Replay(tokens[..k]) == Some(output)
    {
      ReplayPrefix(tokens, k + 1);
      ReplayLast(tokens[..k + 1]);
      assert tokens[..k + 1][..k] == tokens[..k];
      output := ExpandToken(output, tokens[k]);
    }
    assert tokens[..|tokens|] == tokens;
  }

  /** The body of `descomprimir`'s loop: a literal appends `next`; otherwise the bytes from
      `startPos` on are appended one at a time, reading bytes this token may have appended itself,
      then `next`. */
  method ExpandToken(output: seq<Byte>, token: Token) returns (output': seq<Byte>)
    requires Fits(output, token)
    ensures output' == Expand(output, token)
  {
    output' := output;
    if token.offset == 0 && token.length == 0 {
      output' := output' + [token.next];
    } else {
      var startPos := |output'| - token.offset;
      var i := 0;
      while i < token.length
        invariant 0 <= i && (i <= token.length || i == 0)
        invariant output' == output + BackCopy(output, token.offset, i)
      {
        output' := output' + [ByteAt(output', startPos + i)];
        i := i + 1;
      }
      output' := output' + [token.next];
    }
  }

  /** Replaying a match reproduces the matched bytes of the input. */
  lemma {:induction false} MatchCopied(input: seq<Byte>, pos: nat, off: nat, len: nat)
    requires 1 <= off <= pos && IsMatch(input, pos - off, pos, len)
    ensures BackCopy(input[..pos], off, len) == input[pos..pos + len]
  {
    if len > 0 {
      IsMatchShorter(input, pos - off, pos, len, len - 1);
      MatchCopied(input, pos, off, len - 1);
      assert input[..pos] + input[pos..pos + len - 1] == input[..pos + len - 1];
      assert input[pos - off..pos - off + len][len - 1] == input[pos..pos + len][len - 1];
      assert input[pos..pos + len] == input[pos..pos + len - 1] + [input[pos + len - 1]];
    }
  }

  /** No match starting in any window of the input is 128 bytes long: every match length fits the
      token's signed `char`. */
  ghost predicate MatchesFit(input: seq<Byte>, windowSize: nat)
  {
    forall pos: nat, i: nat, k: nat ::
      pos < |input| && WindowStart(pos, windowSize) <= i < pos && IsMatch(input, i, pos, k) ==> k < 128
  }

  /** A longest match, replayed after the input up to `pos`, gives the input up to just past the
      match and its next byte, or the whole input and a '\0' when the match reaches the end. */
  lemma MatchReproduces(input: seq<Byte>, pos: nat, windowSize: nat, off: nat, len: nat, next: Byte)
    requires pos < |input| && IsLongestMatch(input, pos, windowSize, off, len, next)
    ensures pos + len <= |input|
    ensures pos + len < |input| ==> input[..pos] + BackCopy(input[..pos], off, len) + [next] == input[..pos + len + 1]
    ensures pos + len == |input| ==> input[..pos] + BackCopy(input[..pos], off, len) + [next] == input + [0]
                                     && len > 0 && next == 0
  {
    if len > 0 {
      MatchCopied(input, pos, off, len);
      assert input[..pos] + input[pos..pos + len] == input[..pos + len];
    } else {
      assert input[..pos] + BackCopy(input[..pos], off, len) == input[..pos + len];
    }
    if pos + len < |input| {
      assert input[..pos + len + 1] == input[..pos + len] + [input[pos + len]];
    } else {
      assert input[..pos + len] == input;
    }
  }

  /** The token `findLongestMatch` returns in the encode loop holds the match unchanged by the
      narrowing, and replaying it reproduces the input as far as the match and its next byte go. */
  lemma ExpandReproduces(input: seq<Byte>, pos: nat, windowSize: nat, token: Token)
    requires pos < |input| && windowSize < 32768 && MatchesFit(input, windowSize)
    requires IsLongestMatchToken(input, pos, windowSize, token)
    ensures 0 <= token.length && 0 <= token.offset <= windowSize
    ensures Fits(input[..pos], token)
    ensures pos + token.length < |input| ==> Expand(input[..pos], token) == input[..pos + token.length + 1]
    ensures pos + token.length >= |input| ==>
              pos + token.length == |input| && Expand(input[..pos], token) == input + [0]
              && token.length > 0 && token.next == 0
  {
    var off: nat, len: nat :| IsLongestMatch(input, pos, windowSize, off, len, token.next)
                              && token.offset == ToInt16(off) && token.length == ToInt8(len);
    assert len < 128 && off <= windowSize by {
      if len > 0 {
        assert IsMatch(input, pos - off, pos, len);
      }
    }
    assert token.length == len && token.offset == off;
    MatchReproduces(input, pos, windowSize, off, len, token.next);
    ExpandAsCopy(input[..pos], token);
  }

  /** The literal case of `Expand` is the copying case with nothing to copy. */
  lemma ExpandAsCopy(out: seq<Byte>, t: Token)
    requires t.length >= 0
    ensures Expand(out, t) == out + BackCopy(out, t.offset, t.length) + [t.next]
  {
    if t.length == 0 {
      assert out + BackCopy(out, t.offset, 0) == out;
    }
  }

  /** The last token's match runs to the end of an input of `n` bytes: the bytes it copies end
      exactly there. */
  ghost predicate LastReachesEnd(tokens: seq<Token>, n: nat)
  {
    && tokens != []
    && Replay(tokens[..|tokens| - 1]).Some?
    && |Replay(tokens[..|tokens| - 1]).value| + tokens[|tokens| - 1].length == n
  }

  /** After the tokens so far, the encode loop stands at `pos` and they replay to `out`: the input
      before `pos`, or, once the last match has run to the end, the input and a '\0'. */
  ghost predicate EncodedUpTo(input: seq<Byte>, pos: nat, out: seq<Byte>, tokens: seq<Token>)
  {
    || (pos <= |input| && out == input[..pos] && !LastReachesEnd(tokens, |input|))
    || (pos == |input| + 1 && out == input + [0] && LastReachesEnd(tokens, |input|)
        && tokens[|tokens| - 1].next == 0)
  }

  /** One step of the encode loop keeps `EncodedUpTo`. */
  lemma EncodeStep(input: seq<Byte>, pos: nat, windowSize: nat, token: Token, tokens: seq<Token>, out: seq<Byte>,
                    pos': int, out': seq<Byte>, tokens': seq<Token>)
    requires pos < |input| && windowSize < 32768 && MatchesFit(input, windowSize)
    requires IsLongestMatchToken(input, pos, windowSize, token)
    requires out == input[..pos] && Replay(tokens) == Some(out)
    requires pos' == pos + token.length + 1 && out' == Expand(out, token) && tokens' == tokens + [token]
    ensures 0 <= token.length && 0 <= token.offset <= windowSize && Fits(out, token)
    ensures 0 <= pos' && EncodedUpTo(input, pos', out', tokens')
  {
    ExpandReproduces(input, pos, windowSize, token);
    LastAfterStep(tokens, token, tokens', |input|);
    assert out' == Expand(input[..pos], token);
    if pos + token.length < |input| {
      assert out' == input[..pos'];
    } else {
      assert out' == input + [0];
    }
  }

  /** The token appended by a step is the last one: whether it reaches the end depends only on it. */
  lemma LastAfterStep(tokens: seq<Token>, token: Token, tokens': seq<Token>, n: nat)
    requires tokens' == tokens + [token] && Replay(tokens).Some?
    ensures LastReachesEnd(tokens', n) <==> |Replay(tokens).value| + token.length == n
    ensures tokens'[|tokens'| - 1] == token
  {
    assert tokens'[..|tokens|] == tokens;
  }

  /** How far the encode loop has moved after the tokens: `pos += token.length + 1` for each. */
  function Advance(tokens: seq<Token>): int
  {
    if tokens == [] then 0 else Advance(tokens[..|tokens| - 1]) + tokens[|tokens| - 1].length + 1
  }

  /** The tokens are those the encode loop computes, and they advance it to `end`: each one is
      `findLongestMatch` at the position the tokens before it reach, and that position is inside the
      input. */
  ghost predicate GreedyTokens(input: seq<Byte>, windowSize: nat, tokens: seq<Token>, end: int)
  {
    if tokens == [] then end == 0
    else
      && GreedyTokens(input, windowSize, tokens[..|tokens| - 1], end - tokens[|tokens| - 1].length - 1)
      && 0 <= end - tokens[|tokens| - 1].length - 1 < |input|
      && IsLongestMatchToken(input, end - tokens[|tokens| - 1].length - 1, windowSize, tokens[|tokens| - 1])
  }

  /** The loop's tokens advance it by `length + 1` each. */
  lemma {:induction false} GreedyEnd(input: seq<Byte>, windowSize: nat, tokens: seq<Token>, end: int)
    requires GreedyTokens(input, windowSize, tokens, end)
    ensures end == Advance(tokens)
  {
    if tokens != [] {
      var last := tokens[|tokens| - 1];
      GreedyEnd(input, windowSize, tokens[..|tokens| - 1], end - last.length - 1);
    }
  }

  /** Read token by token: the k-th of the loop's tokens is the longest match at the position the k
      tokens before it reach, inside the input. */
  lemma {:induction false} GreedyAt(input: seq<Byte>, windowSize: nat, tokens: seq<Token>, end: int, k: nat)
    requires GreedyTokens(input, windowSize, tokens, end) && k < |tokens|
    ensures 0 <= Advance(tokens[..k]) < |input|
    ensures IsLongestMatchToken(input, Advance(tokens[..k]), windowSize, tokens[k])
  {
    var init, last := tokens[..|tokens| - 1], tokens[|tokens| - 1];
    var start := end - last.length - 1;
    if k < |tokens| - 1 {
      GreedyAt(input, windowSize, init, start, k);
      assert init[..k] == tokens[..k] && init[k] == tokens[k];
    } else {
      GreedyEnd(input, windowSize, init, start);
    }
  }

  /** Two token sequences that are both the loop's agree on their common prefix: at each position
      the loop reaches there is one longest-match token. */
  lemma {:induction false} GreedyPrefix(input: seq<Byte>, windowSize: nat, tokens: seq<Token>, end: int,
                                        tokens': seq<Token>, end': int, k: nat)
    requires GreedyTokens(input, windowSize, tokens, end) && GreedyTokens(input, windowSize, tokens', end')
    requires k <= |tokens| && k <= |tokens'|
    ensures tokens[..k] == tokens'[..k]
  {
    if k > 0 {
      GreedyPrefix(input, windowSize, tokens, end, tokens', end', k - 1);
      GreedyAt(input, windowSize, tokens, end, k - 1);
      GreedyAt(input, windowSize, tokens', end', k - 1);
      LongestMatchTokenUnique(input, Advance(tokens[..k - 1]), windowSize, tokens[k - 1], tokens'[k - 1]);
      assert tokens[..k] == tokens[..k - 1] + [tokens[k - 1]];
      assert tokens'[..k] == tokens'[..k - 1] + [tokens'[k - 1]];
    }
  }

  /** The encode loop computes one token sequence only: two token sequences that are both the loop's
      and both run to the end of the input are the same. */
  lemma GreedyDeterministic(input: seq<Byte>, windowSize: nat, tokens: seq<Token>, end: int, tokens': seq<Token>, end': int)
    requires GreedyTokens(input, windowSize, tokens, end) && end >= |input|
    requires GreedyTokens(input, windowSize, tokens', end') && end' >= |input|
    ensures tokens == tokens'
  {
    GreedyEnd(input, windowSize, tokens, end);
    GreedyEnd(input, windowSize, tokens', end');
    if |tokens| < |tokens'| {
      GreedyPrefix(input, windowSize, tokens, end, tokens', end', |tokens|);
      assert tokens'[..|tokens|] == tokens;
      GreedyAt(input, windowSize, tokens', end', |tokens|);
      assert false;
    } else if |tokens'| < |tokens| {
      GreedyPrefix(input, windowSize, tokens, end, tokens', end', |tokens'|);
      assert tokens[..|tokens'|] == tokens';
      GreedyAt(input, windowSize, tokens, end, |tokens'|);
      assert false;
    } else {
      GreedyPrefix(input, windowSize, tokens, end, tokens', end', |tokens|);
      assert tokens == tokens[..|tokens|] && tokens' == tokens'[..|tokens'|];
    }
  }

  /** At a given position the loop's token is determined. */
  lemma LongestMatchTokenUnique(input: seq<Byte>, pos: nat, windowSize: nat, t: Token, t': Token)
    requires IsLongestMatchToken(input, pos, windowSize, t)
    requires IsLongestMatchToken(input, pos, windowSize, t')
    ensures t == t'
  {
    var off: nat, len: nat :| IsLongestMatch(input, pos, windowSize, off, len, t.next)
                              && t.offset == ToInt16(off) && t.length == ToInt8(len);
    var off': nat, len': nat :| IsLongestMatch(input, pos, windowSize, off', len', t'.next)
                                && t'.offset == ToInt16(off') && t'.length == ToInt8(len');
    LongestMatchUnique(input, pos, windowSize, off, len, t.next, off', len', t'.next);
    SameNarrowing(off, len, t, off', len', t');
  }

  /** Tokens narrowed from the same offset, length and next byte are equal. Kept apart from
      `LongestMatchTokenUnique`: alone it is immediate, beside the two match predicates it is costly. */
  lemma SameNarrowing(off: nat, len: nat, t: Token, off': nat, len': nat, t': Token)
    requires off == off' && len == len' && t.next == t'.next
    requires t.offset == ToInt16(off) && t.length == ToInt8(len)
    requires t'.offset == ToInt16(off') && t'.length == ToInt8(len')
    ensures t == t'
  {
  }

  /** The token `findLongestMatch` returns at the position the loop's tokens reach extends them. */
  lemma GreedyStep(input: seq<Byte>, windowSize: nat, tokens: seq<Token>, pos: int, token: Token,
                    pos': int, tokens': seq<Token>)
    requires GreedyTokens(input, windowSize, tokens, pos) && 0 <= pos < |input|
    requires IsLongestMatchToken(input, pos, windowSize, token)
    requires pos' == pos + token.length + 1 && tokens' == tokens + [token]
    ensures GreedyTokens(input, windowSize, tokens', pos')
  {
    assert tokens'[..|tokens'| - 1] == tokens && tokens'[|tokens'| - 1] == token;
    assert GreedyTokens(input, windowSize, tokens'[..|tokens'| - 1], pos' - tokens'[|tokens'| - 1].length - 1);
    assert IsLongestMatchToken(input, pos' - tokens'[|tokens'| - 1].length - 1, windowSize, tokens'[|tokens'| - 1]);
  }

  /** The encode loop of `main`: one token per step, advancing `pos` by `length + 1`. The tokens are
      the loop's (each the longest match at the position the previous ones reach). For a window of
      at most 32767 bytes and an input without matches of 128 bytes, they replay to the input,
      unless the last token's match runs to the end of the input: then they replay to the input and
      the '\0' that token carries as its next byte. */
  method Compress(inputText: seq<Byte>, windowSize: nat) returns (tokens: seq<Token>)
    requires windowSize < 32768 && MatchesFit(inputText, windowSize)
    ensures GreedyTokens(inputText, windowSize, tokens, Advance(tokens)) && Advance(tokens) >= |inputText|
    ensures Replay(tokens).Some?
    ensures !LastReachesEnd(tokens, |inputText|) ==> Replay(tokens).value == inputText
    ensures LastReachesEnd(tokens, |inputText|) ==>
              Replay(tokens).value == inputText + [0] && tokens[|tokens| - 1].next == 0
    ensures forall t :: t in tokens ==> 0 <= t.length && 0 <= t.offset <= windowSize
  {
    tokens := [];
    var pos := 0;
    ghost var out: seq<Byte> := [];
    while pos < |inputText|
      invariant 0 <= pos <= |inputText| + 1 && Replay(tokens) == Some(out)
      invariant EncodedUpTo(inputText, pos, out, tokens)
      invariant forall t :: t in tokens ==> 0 <= t.length && 0 <= t.offset <= windowSize
      invariant GreedyTokens(inputText, windowSize, tokens, pos)
      decreases |inputText| + 1 - pos
    {
      assert out == inputText[..pos];
      var token := FindLongestMatch(inputText, pos, windowSize);
      ghost var pos0: nat, out0, tokens0 := pos, out, tokens;
      out := Expand(out, token);
      tokens := tokens + [token];
      pos := pos + token.length + 1;
      EncodeStep(inputText, pos0, windowSize, token, tokens0, out0, pos, out, tokens);
      ReplayAppend(tokens0, token);
      GreedyStep(inputText, windowSize, tokens0, pos0, token, pos, tokens);
    }
    EncodedAll(inputText, pos, out, tokens);
    GreedyEnd(inputText, windowSize, tokens, pos);
  }

  /** When the encode loop stops, the tokens replay to the input, or to the input and a '\0'. */
  lemma EncodedAll(input: seq<Byte>, pos: nat, out: seq<Byte>, tokens: seq<Token>)
    requires pos >= |input| && EncodedUpTo(input, pos, out, tokens)
    ensures !LastReachesEnd(tokens, |input|) ==> out == input
    ensures LastReachesEnd(tokens, |input|) ==> out == input + [0] && tokens[|tokens| - 1].next == 0
  {
    if pos == |input| {
      assert input[..pos] == input;
    }
  }

  /** `main` from the encode loop to `descomprimir`, with its window of 4096 bytes and without the
      binary file in between. */
  method CompressAndRestore(inputText: seq<Byte>) returns (tokens: seq<Token>, decompressedText: seq<Byte>)
    requires MatchesFit(inputText, 4096)
    ensures GreedyTokens(inputText, 4096, tokens, Advance(tokens)) && Advance(tokens) >= |inputText|
    ensures !LastReachesEnd(tokens, |inputText|) ==> decompressedText == inputText
    ensures LastReachesEnd(tokens, |inputText|) ==> decompressedText == inputText + [0]
    ensures forall t :: t in tokens ==> 0 <= t.length && 0 <= t.offset <= 4096
  {
    tokens := Compress(inputText, 4096);
    decompressedText := Decompress(tokens);
  }
}
