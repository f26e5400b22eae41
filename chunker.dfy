/**
 * `split_into_chunks`: the document is encoded into tokens, the token list
 * is cut into consecutive windows of `tokens` items (the last may be
 * shorter), and each window is decoded on its own into one chunk.
 */
module Chunker {

  type Token = int

  /** The tokenizer of one model, a foreign library: only its two functions
      are seen, with no relation assumed between them. */
  datatype Encoding = Encoding(encode: string -> seq<Token>, decode: seq<Token> -> string)

  function Min(a: int, b: int): int
  {
    if a <= b then a else b
  }

  /** The consecutive windows of `size` tokens that cover `words`. */
  function Windows(words: seq<Token>, size: nat): seq<seq<Token>>
    requires size > 0
    decreases |words|
  {
    if words == [] then []
    else
      var n := Min(size, |words|);
      [words[..n]] + Windows(words[n..], size)
  }

  /** The windows `range(0, len(words), tokens)` visits. A negative step
      gives an empty range because the start 0 is never above the stop. */
  function TokenWindows(words: seq<Token>, tokens: int): seq<seq<Token>>
    requires tokens != 0
  {
    if tokens < 0 then [] else Windows(words, tokens)
  }

  /** Each window decoded on its own, in order. */
  function DecodeAll(ws: seq<seq<Token>>, decode: seq<Token> -> string): seq<string>
  {
    seq(|ws|, j requires 0 <= j < |ws| => decode(ws[j]))
  }

  /** Decoding one more window appends its chunk. */
  lemma DecodeAllSnoc(ws: seq<seq<Token>>, k: nat, decode: seq<Token> -> string)
    requires k < |ws|
    ensures DecodeAll(ws[..k + 1], decode) == DecodeAll(ws[..k], decode) + [decode(ws[k])]
  {
  }

  /** The concatenation of the windows, in order. */
  function Flatten(ws: seq<seq<Token>>): seq<Token>
  {
    if ws == [] then [] else ws[0] + Flatten(ws[1..])
  }

  lemma {:induction false} MulAtLeast(d: nat, s: nat)
    requires d >= 1
    ensures d * s >= s
  {
    if d > 1 {
      MulAtLeast(d - 1, s);
      assert d * s == (d - 1) * s + s;
    }
  }

  lemma Distrib(q: int, k: int, s: int)
    ensures q * s == k * s + (q - k) * s
  {
  }

  /** `a / s` is the `k` with `k * s <= a < (k + 1) * s`. */
  lemma DivUnique(a: int, s: int, k: int)
    requires s > 0 && k * s <= a < k * s + s
    ensures a / s == k
  {
    var q := a / s;
    var r := a % s;
    assert a == q * s + r && 0 <= r < s;
    if q > k {
      Distrib(q, k, s);
      MulAtLeast(q - k, s);
      assert false;
    } else if q < k {
      Distrib(k, q, s);
      MulAtLeast(k - q, s);
      assert false;
    }
  }

  /** With `k` windows of at most `size` tokens, all but the last full:
      `(k - 1) * size < n <= k * size`, and no windows for no tokens. */
  lemma {:induction false} WindowBounds(words: seq<Token>, size: nat)
    requires size > 0
    ensures words == [] <==> |Windows(words, size)| == 0
    ensures words != [] ==>
      (|Windows(words, size)| - 1) * size < |words| <= |Windows(words, size)| * size
    decreases |words|
  {
    if words != [] {
      var n := Min(size, |words|);
      var k := |Windows(words[n..], size)|;
      WindowBounds(words[n..], size);
      if |words| > size {
        Distrib(k + 1, k, size);
        Distrib(k, k - 1, size);
      }
    }
  }

  /** There are ceil(n / size) windows; none when there are no tokens. */
  lemma WindowCount(words: seq<Token>, size: nat)
    requires size > 0
    ensures |Windows(words, size)| == (|words| + size - 1) / size
    ensures |Windows(words, size)| == 0 <==> words == []
  {
    var k := |Windows(words, size)|;
    WindowBounds(words, size);
    if k > 0 {
      Distrib(k, k - 1, size);
    }
    DivUnique(|words| + size - 1, size, k);
  }

  /** Every window holds at least one and at most `size` tokens, and all but
      the last hold exactly `size`. */
  lemma {:induction false} WindowSizes(words: seq<Token>, size: nat)
    requires size > 0
    ensures forall j :: 0 <= j < |Windows(words, size)| ==>
      0 < |Windows(words, size)[j]| <= size
    ensures forall j :: 0 <= j < |Windows(words, size)| - 1 ==>
      |Windows(words, size)[j]| == size
    decreases |words|
  {
    if words != [] {
      var n := Min(size, |words|);
      WindowSizes(words[n..], size);
      if n < size {
        assert words[n..] == [];
      }
    }
  }

  /** Concatenating the windows in order gives back the tokens exactly. */
  lemma {:induction false} WindowsFlatten(words: seq<Token>, size: nat)
    requires size > 0
    ensures Flatten(Windows(words, size)) == words
    decreases |words|
  {
    if words != [] {
      var n := Min(size, |words|);
      WindowsFlatten(words[n..], size);
      assert words == words[..n] + words[n..];
    }
  }

  /** Where window `j` starts, counted by steps of `size`. */
  function Offset(j: nat, size: nat): nat
  {
    if j == 0 then 0 else Offset(j - 1, size) + size
  }

  lemma {:induction false} OffsetIsProduct(j: nat, size: nat)
    ensures Offset(j, size) == j * size
  {
    if j > 0 {
      OffsetIsProduct(j - 1, size);
      Distrib(j, j - 1, size);
    }
  }

  lemma {:induction false} WindowAtOffset(words: seq<Token>, size: nat, j: nat)
    requires size > 0 && j < |Windows(words, size)|
    ensures Offset(j, size) < |words|
    ensures Windows(words, size)[j] == words[Offset(j, size) .. Min(Offset(j, size) + size, |words|)]
    decreases j
  {
    if j > 0 {
      WindowsTail(words, size, j);
      var rest := words[size..];
      WindowAtOffset(rest, size, j - 1);
      var o := Offset(j - 1, size);
      var e := Min(o + size, |rest|);
      assert Windows(words, size)[j] == rest[o..e];
      SliceOfSuffix(words, size, o, e);
      assert Offset(j, size) == o + size;
      assert e + size == Min(Offset(j, size) + size, |words|);
    }
  }

  /** Any window after the first is a window of the tokens after the first
      `size`. */
  lemma WindowsTail(words: seq<Token>, size: nat, j: nat)
    requires size > 0 && 0 < j < |Windows(words, size)|
    ensures size < |words|
    ensures j - 1 < |Windows(words[size..], size)|
    ensures Windows(words, size)[j] == Windows(words[size..], size)[j - 1]
  {
    var n := Min(size, |words|);
    assert Windows(words, size) == [words[..n]] + Windows(words[n..], size);
    assert Windows(words[n..], size) != [];
  }

  /** A slice of `words[d..]` is the slice of `words` shifted by `d`. */
  lemma SliceOfSuffix(words: seq<Token>, d: nat, lo: nat, hi: nat)
    requires d <= |words| && lo <= hi <= |words| - d
    ensures words[d..][lo..hi] == words[lo + d..hi + d]
  {
  }

  /** Window `j` is the slice `words[j*size .. min((j+1)*size, n)]`. */
  lemma WindowAt(words: seq<Token>, size: nat, j: nat)
    requires size > 0 && j < |Windows(words, size)|
    ensures j * size < |words|
    ensures Windows(words, size)[j] == words[j * size .. Min((j + 1) * size, |words|)]
  {
    WindowAtOffset(words, size, j);
    OffsetIsProduct(j, size);
    Distrib(j + 1, j, size);
  }

  /** The windows from token `i` on: the slice `words[i:i + size]` first,
      then the windows from `i + size` on. */
  lemma WindowsFrom(words: seq<Token>, i: nat, size: nat)
    requires size > 0 && i < |words|
    ensures Windows(words[i..], size) ==
      [words[i..Min(i + size, |words|)]] +
      Windows(if i + size < |words| then words[i + size..] else [], size)
  {
    var rest := words[i..];
    assert words[i..Min(i + size, |words|)] == rest[..Min(size, |rest|)];
    assert (if i + size < |words| then words[i + size..] else []) == rest[Min(size, |rest|)..];
  }

  /** One step of the chunking loop: when the windows from token `i` on are
      `ws[k..]`, window `k` is the slice at `i` and the windows from
      `i + size` on are `ws[k + 1..]`. */
  lemma WindowStep(words: seq<Token>, i: nat, size: nat, ws: seq<seq<Token>>, k: nat)
    requires size > 0 && i < |words| && k <= |ws|
    requires Windows(words[i..], size) == ws[k..]
    ensures k < |ws| && ws[k] == words[i..Min(i + size, |words|)]
    ensures Windows(if i + size < |words| then words[i + size..] else [], size) == ws[k + 1..]
  {
    WindowsFrom(words, i, size);
    assert ws[k..][1..] == ws[k + 1..];
  }

  /** `split_into_chunks(text, model, tokens)` with the model's encoding:
      chunk `j` is the decoding of token window `j`, and there are
      ceil(n / tokens) chunks for a positive step (none for a negative one).
      A zero step makes Python's `range` fail, hence the precondition. */
  method SplitIntoChunks(text: string, encoding: Encoding, tokens: int) returns (chunks: seq<string>)
    requires tokens != 0
    ensures chunks == DecodeAll(TokenWindows(encoding.encode(text), tokens), encoding.decode)
    ensures tokens > 0 ==> |chunks| == (|encoding.encode(text)| + tokens - 1) / tokens
    ensures tokens < 0 ==> chunks == []
  {
    var words := encoding.encode(text);
    chunks := [];
    if tokens < 0 {
      return;
    }
    ghost var ws := Windows(words, tokens);
    var i := 0;
    while i < |words|
      invariant |chunks| <= |ws|
      invariant Windows(if i < |words| then words[i..] else [], tokens) == ws[|chunks|..]
      invariant chunks == DecodeAll(ws[..|chunks|], encoding.decode)
      decreases |words| - i
    {
      var window := words[i..Min(i + tokens, |words|)];
      WindowStep(words, i, tokens, ws, |chunks|);
      DecodeAllSnoc(ws, |chunks|, encoding.decode);
      chunks := chunks + [encoding.decode(window)];
      i := i + tokens;
    }
    assert ws[|chunks|..] == [];
    assert ws[..|chunks|] == ws;
    WindowCount(words, tokens);
  }
}
