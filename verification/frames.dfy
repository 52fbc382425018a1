/** Frame acceptance and byte-order normalisation: a frame is a hex-character
    string of exactly 244 characters; it is read as 122 two-character byte
    tokens taken from the end of the string toward the start, and the tokens
    divide into a 58-byte critical region and a 64-byte paged region. */
module Frames {

  const FrameChars: nat := 244
  const TokenCount: nat := 122
  const CriticalTokens: nat := 58
  const PagedTokens: nat := 64

  /** A byte as it appears in the capture: two hex characters. */
  type Token = string

  /** The tokens glued together, in order (Python's `str.join` with an empty
      separator). */
  function Concat(ts: seq<string>): string
  {
    if |ts| == 0 then "" else ts[0] + Concat(ts[1..])
  }

  predicate AllPairs(ts: seq<string>) {
    forall k :: 0 <= k < |ts| ==> |ts[k]| == 2
  }

  /** Only pieces of exactly 244 characters are decoded; the rest are
      skipped (cf-nf_data.py lines 65-67). */
  predicate IsFrame(piece: string) {
    |piece| == FrameChars
  }

  /** The byte tokens of `line`, two characters each, taken from the end of
      the string toward its start (cf-nf_data.py line 69). */
  function ByteTokens(line: string): (ts: seq<Token>)
    requires |line| % 2 == 0
    ensures |ts| == |line| / 2
    ensures AllPairs(ts)
    ensures forall k :: 0 <= k < |ts| ==> ts[k] == line[|line| - 2 * k - 2..|line| - 2 * k]
    decreases |line|
  {
    if |line| == 0 then []
    else
      var n := |line|;
      var rest := ByteTokens(line[..n - 2]);
      PrefixPairs(line, rest);
      [line[n - 2..]] + rest
  }

  /** The tokens of `line` minus its last pair are the tokens of `line` one
      position further on. */
  lemma PrefixPairs(line: string, rest: seq<Token>)
    requires |line| >= 2 && |rest| == (|line| - 2) / 2
    requires forall k :: 0 <= k < |rest| ==>
               rest[k] == line[..|line| - 2][|line| - 2 - 2 * k - 2..|line| - 2 - 2 * k]
    ensures forall k :: 0 <= k < |rest| ==>
              rest[k] == line[|line| - 2 * (k + 1) - 2..|line| - 2 * (k + 1)]
  {
  }

  /** The byte tokens of `line` in reading order. */
  function Chunks(line: string): (ts: seq<Token>)
    requires |line| % 2 == 0
    ensures |ts| == |line| / 2
    ensures AllPairs(ts)
    ensures forall k :: 0 <= k < |ts| ==> ts[k] == line[2 * k..2 * k + 2]
    decreases |line|
  {
    if |line| == 0 then []
    else
      var rest := Chunks(line[2..]);
      SuffixPairs(line, rest);
      [line[..2]] + rest
  }

  /** The chunks of `line` minus its first pair are the chunks of `line` one
      position further on. */
  lemma SuffixPairs(line: string, rest: seq<Token>)
    requires |line| >= 2 && |rest| == (|line| - 2) / 2
    requires forall k :: 0 <= k < |rest| ==> rest[k] == line[2..][2 * k..2 * k + 2]
    ensures forall k :: 0 <= k < |rest| ==> rest[k] == line[2 * (k + 1)..2 * (k + 1) + 2]
  {
  }

  function Reverse<T>(xs: seq<T>): (ys: seq<T>)
    ensures |ys| == |xs|
    ensures forall k :: 0 <= k < |xs| ==> ys[k] == xs[|xs| - 1 - k]
  {
    seq(|xs|, k requires 0 <= k < |xs| => xs[|xs| - 1 - k])
  }

  lemma ReverseReverse<T>(xs: seq<T>)
    ensures Reverse(Reverse(xs)) == xs
  {
  }

  /** Byte tokens are the reading-order chunks reversed: a full reversal of
      the byte order, not a pairwise swap. */
  lemma {:induction false} ByteTokensAreReversedChunks(line: string)
    requires |line| % 2 == 0
    ensures ByteTokens(line) == Reverse(Chunks(line))
  {
    var n := |line| / 2;
    var bt, rc := ByteTokens(line), Reverse(Chunks(line));
    assert 2 * n == |line|;
    forall k | 0 <= k < n ensures bt[k] == rc[k] {
      var j := n - 1 - k;
      assert 2 * j == |line| - 2 * k - 2;
      assert 2 * j + 2 == |line| - 2 * k;
      assert rc[k] == Chunks(line)[j];
      assert Chunks(line)[j] == line[2 * j..2 * j + 2];
      assert bt[k] == line[|line| - 2 * k - 2..|line| - 2 * k];
    }
  }

  /** Cutting a string into pairs and gluing them back gives the string. */
  lemma {:induction false} ConcatChunks(line: string)
    requires |line| % 2 == 0
    ensures Concat(Chunks(line)) == line
    decreases |line|
  {
    if |line| > 0 {
      ConcatChunks(line[2..]);
      assert Chunks(line)[1..] == Chunks(line[2..]);
      assert line == line[..2] + line[2..];
    }
  }

  /** Gluing pairs together and cutting the result into pairs gives them back. */
  lemma {:induction false} ChunksConcat(ts: seq<string>)
    requires AllPairs(ts)
    ensures |Concat(ts)| == 2 * |ts|
    ensures Chunks(Concat(ts)) == ts
    decreases |ts|
  {
    if |ts| > 0 {
      var rest := ts[1..];
      assert AllPairs(rest) by {
        forall k | 0 <= k < |rest| ensures |rest[k]| == 2 { assert rest[k] == ts[k + 1]; }
      }
      ChunksConcat(rest);
      var s := Concat(ts);
      assert s == ts[0] + Concat(rest);
      assert s[..2] == ts[0];
      assert s[2..] == Concat(rest);
    }
  }

  /** Normalising twice returns the bytes in their original order, and gluing
      the normalised bytes back in reverse order restores the frame. */
  lemma NormalizeTwice(line: string)
    requires |line| % 2 == 0
    ensures |Concat(ByteTokens(line))| == |line|
    ensures ByteTokens(Concat(ByteTokens(line))) == Chunks(line)
    ensures Concat(Reverse(ByteTokens(line))) == line
  {
    var ts := ByteTokens(line);
    ByteTokensAreReversedChunks(line);
    ChunksConcat(ts);
    var glued := Concat(ts);
    ByteTokensAreReversedChunks(glued);
    ReverseReverse(Chunks(line));
    ConcatChunks(line);
  }

  /** A normalised frame: the critical region the decoder reads, and the paged
      region it extracts and keeps but never decodes. */
  datatype Frame = Frame(critical: seq<Token>, paged: seq<Token>)

  /** The critical region is the first 58 reversed tokens and the paged region
      the last 64 (cf-nf_data.py lines 69-72). */
  function Normalize(line: string): (f: Frame)
    requires IsFrame(line)
    ensures |f.critical| == CriticalTokens && |f.paged| == PagedTokens
    ensures f.critical + f.paged == ByteTokens(line)
    ensures AllPairs(f.critical)
    ensures forall k :: 0 <= k < CriticalTokens ==>
              f.critical[k] == line[2 * (121 - k)..2 * (121 - k) + 2]
  {
    var ts := ByteTokens(line);
    Frame(ts[..CriticalTokens], ts[|ts| - PagedTokens..])
  }
}
