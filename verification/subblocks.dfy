/**
  Data sub-block chains (sections 15 and 16 of the GIF89a specification):
  length-prefixed chunks of 1..255 bytes, ended by a zero length byte.

  `ParseDataSubblocks` is the chain scanner of `src/parser/subblocks.rs`, with
  the chunk length computed as a mathematical `n + 1` and with an `Error`
  where the source indexes past the end of its input; the code as written is
  modelled in module `SubblocksAsWritten`.
*/
module Subblocks {
  import opened Nom
  import opened Gift

  /**
    `non_empty_subblock`: a length byte `n`, which must not be zero, and the
    `n` bytes after it. The returned slice includes the length byte.
  */
  function ParseNonEmptySubblock(s: Bytes): (r: Result<Bytes>)
    ensures r.Done? <==> |s| > 0 && s[0] != 0 && |s| > s[0]
    ensures r.Done? ==> r.value == s[..s[0] as int + 1] && r.rest == s[s[0] as int + 1..]
    ensures r.Done? ==> |r.value| >= 2
    ensures r.Error? <==> |s| > 0 && s[0] == 0
    ensures r.Error? ==> r == Error(s, Custom(0))
    ensures r.Incomplete? ==> r.needed == if |s| == 0 then 1 else s[0] as int + 1
  {
    var length :- LeU8(s);
    if length.0 == 0 then Error(s, Custom(0))
    else Take(length.0 as int + 1, s)
  }

  /** No non-empty chunk starts at offset `k` of `s`: the scan loop's exit condition. */
  predicate ChainStops(s: Bytes, k: nat) {
    k >= |s| || s[k] == 0 || |s| <= k + s[k]
  }

  /**
    The number of bytes the scan loop of `data_subblocks` steps over: whole
    chunks, one after the other, until no non-empty chunk starts.
  */
  function SkipChunks(s: Bytes): (k: nat)
    ensures k <= |s| && ChainStops(s, k)
    decreases |s|
  {
    if ChainStops(s, 0) then 0
    else
      var n := s[0] as int + 1;
      var k := n + SkipChunks(s[n..]);
      assert s[k..] == s[n..][k - n..];
      k
  }

  /** Unfolding `SkipChunks` at offset `i`, where a non-empty chunk starts. */
  lemma SkipChunksStep(s: Bytes, i: nat)
    requires i < |s| && !ChainStops(s, i)
    ensures SkipChunks(s[i..]) == s[i] as int + 1 + SkipChunks(s[i + s[i] as int + 1..])
  {
    var n := s[i] as int + 1;
    assert s[i..][n..] == s[i + n..];
  }

  /** A chunk can be taken at offset `i` exactly when the scan does not stop there. */
  lemma ChunkAt(s: Bytes, i: nat)
    requires i <= |s|
    ensures ParseNonEmptySubblock(s[i..]).Done? <==> !ChainStops(s, i)
    ensures ParseNonEmptySubblock(s[i..]).Done? ==> |ParseNonEmptySubblock(s[i..]).value| == s[i] as int + 1
    ensures ChainStops(s[i..], 0) <==> ChainStops(s, i)
  {
  }

  /** The offset where the scan loop, started at offset `i`, stops. */
  function SkipFrom(s: Bytes, i: nat): (k: nat)
    requires i <= |s|
    decreases |s| - i
  {
    if ChainStops(s, i) then i else SkipFrom(s, i + s[i] as int + 1)
  }

  /** Scanning from offset `i` steps over the chunks of `s[i..]`. */
  lemma {:induction false} SkipFromIsSkipChunks(s: Bytes, i: nat)
    requires i <= |s|
    ensures SkipFrom(s, i) == i + SkipChunks(s[i..])
    decreases |s| - i
  {
    if ChainStops(s, i) {
      assert ChainStops(s[i..], 0);
    } else {
      var j := i + s[i] as int + 1;
      assert SkipFrom(s, i) == SkipFrom(s, j);
      SkipChunksStep(s, i);
      SkipFromIsSkipChunks(s, j);
    }
  }

  /**
    The scan loop of `data_subblocks` (`while let Ok(..) = non_empty_subblock(&input[i..])`):
    it stops at the first offset where no non-empty chunk can be taken.
  */
  method ScanChain(s: Bytes) returns (i: nat)
    ensures i <= |s| && ChainStops(s, i)
    ensures i == SkipChunks(s)
  {
    i := 0;
    while ParseNonEmptySubblock(s[i..]).Done?
      invariant i <= |s| && SkipFrom(s, i) == SkipFrom(s, 0)
      decreases |s| - i
    {
      ChunkAt(s, i);
      i := i + |ParseNonEmptySubblock(s[i..]).value|;
    }
    ChunkAt(s, i);
    SkipFromIsSkipChunks(s, 0);
    assert s[0..] == s;
  }

  /**
    `data_subblocks`: the whole chain, terminator included, as one view.
    The scan must stop on a zero byte; a truncated chunk, and an input that
    ends where a length byte is expected, are `Error(input, Custom(0))`.
  */
  function ParseDataSubblocks(s: Bytes): (r: Result<SubBlocks>)
    ensures !r.Incomplete?
    ensures r.Done? ==> 0 < |r.value.span| && s == r.value.span + r.rest
    ensures r.Done? ==> r.value.span[|r.value.span| - 1] == 0
    ensures r.Error? ==> r == Error(s, Custom(0))
  {
    var i := SkipChunks(s);
    if i < |s| && s[i] == 0 then
      // `take!(i + 1)` on an input longer than `i`
      Done(SubBlocks(s[..i + 1]), s[i + 1..])
    else
      Error(s, Custom(0))
  }

  /**
    Reference definition of a complete chain: a zero byte alone, or a length
    byte `n > 0`, `n` bytes, and a complete chain.
  */
  predicate IsChain(p: Bytes)
    decreases |p|
  {
    && |p| > 0
    && if p[0] == 0 then |p| == 1
       else |p| > p[0] as int + 1 && IsChain(p[p[0] as int + 1..])
  }

  /** On a complete chain followed by anything, the scan stops exactly on the terminator. */
  lemma {:induction false} SkipChunksOfChain(p: Bytes, r: Bytes)
    requires IsChain(p)
    ensures SkipChunks(p + r) == |p| - 1
    ensures p[|p| - 1] == 0
    decreases |p|
  {
    var s := p + r;
    if p[0] != 0 {
      var n := p[0] as int + 1;
      assert s[n..] == p[n..] + r;
      SkipChunksOfChain(p[n..], r);
    }
  }

  /** A length byte, that many bytes, and a complete chain form a complete chain. */
  lemma ChainCons(p: Bytes)
    requires |p| > 0 && p[0] != 0 && |p| > p[0] as int + 1
    requires IsChain(p[p[0] as int + 1..])
    ensures IsChain(p)
  {
  }

  /** A first chunk of `n - 1` bytes followed by a complete chain is a complete chain. */
  lemma ChainPrefixCons(s: Bytes, n: nat, j: nat)
    requires 0 < |s| && s[0] != 0 && n == s[0] as int + 1 && n + j < |s|
    requires IsChain(s[n..][..j + 1])
    ensures IsChain(s[..n + j + 1])
  {
    var p := s[..n + j + 1];
    assert p[n..] == s[n..][..j + 1];
    ChainCons(p);
  }

  /** Where the scan stops on a zero byte, the bytes up to it form a complete chain. */
  lemma {:induction false} ScanEndsOnChain(s: Bytes)
    requires SkipChunks(s) < |s| && s[SkipChunks(s)] == 0
    ensures IsChain(s[..SkipChunks(s) + 1])
    decreases |s|
  {
    if ChainStops(s, 0) {
      assert s[..1] == [0];
    } else {
      var n := s[0] as int + 1;
      var j := SkipChunks(s[n..]);
      assert SkipChunks(s) == n + j;
      assert s[n..][j] == s[n + j];
      ScanEndsOnChain(s[n..]);
      ChainPrefixCons(s, n, j);
    }
  }

  /**
    `data_subblocks` accepts exactly the inputs that start with a complete
    chain; the view is that chain and the remainder is everything after it.
  */
  lemma DataSubblocksAcceptsChains(s: Bytes, p: Bytes, r: Bytes)
    ensures ParseDataSubblocks(s) == Done(SubBlocks(p), r) <==> IsChain(p) && s == p + r
  {
    if IsChain(p) && s == p + r {
      SkipChunksOfChain(p, r);
      assert s[..|p|] == p;
    }
    if ParseDataSubblocks(s) == Done(SubBlocks(p), r) {
      ScanEndsOnChain(s);
    }
  }

  /** A chunk of the logical payload: one to 255 bytes. */
  predicate ValidChunk(c: Bytes) {
    0 < |c| < 256
  }

  /** Total payload length of a list of chunks. */
  function TotalLength(chunks: seq<Bytes>): nat {
    if |chunks| == 0 then 0 else |chunks[0]| + TotalLength(chunks[1..])
  }

  /** The wire encoding of a list of chunks: each with its length byte, then the terminator. */
  function EncodeChain(chunks: seq<Bytes>): Bytes
    requires forall k | 0 <= k < |chunks| :: ValidChunk(chunks[k])
  {
    if |chunks| == 0 then [0]
    else
      assert ValidChunk(chunks[0]);
      var length: byte := |chunks[0]|;
      [length] + chunks[0] + EncodeChain(chunks[1..])
  }

  /** An encoded chain is a complete chain of `ΣLi + k + 1` bytes. */
  lemma {:induction false} EncodeChainIsChain(chunks: seq<Bytes>)
    requires forall k | 0 <= k < |chunks| :: ValidChunk(chunks[k])
    ensures IsChain(EncodeChain(chunks))
    ensures |EncodeChain(chunks)| == TotalLength(chunks) + |chunks| + 1
  {
    if |chunks| > 0 {
      EncodeChainIsChain(chunks[1..]);
      var p := EncodeChain(chunks);
      var n := |chunks[0]| + 1;
      assert p[0] == |chunks[0]|;
      assert p[n..] == EncodeChain(chunks[1..]);
    }
  }

  /**
    Encoding chunks and scanning the result gives the whole encoding back as
    the view and leaves what followed it, after consuming `ΣLi + k + 1` bytes.
  */
  lemma ChainRoundTrip(chunks: seq<Bytes>, r: Bytes)
    requires forall k | 0 <= k < |chunks| :: ValidChunk(chunks[k])
    ensures ParseDataSubblocks(EncodeChain(chunks) + r) == Done(SubBlocks(EncodeChain(chunks)), r)
    ensures |EncodeChain(chunks)| == TotalLength(chunks) + |chunks| + 1
  {
    EncodeChainIsChain(chunks);
    DataSubblocksAcceptsChains(EncodeChain(chunks) + r, EncodeChain(chunks), r);
  }

  /** The chunks of a complete chain, length bytes and terminator removed. */
  function Chunks(p: Bytes): (chunks: seq<Bytes>)
    requires IsChain(p)
    ensures forall k | 0 <= k < |chunks| :: ValidChunk(chunks[k])
    ensures EncodeChain(chunks) == p
    decreases |p|
  {
    if p[0] == 0 then []
    else
      var n := p[0] as int;
      var tail := Chunks(p[n + 1..]);
      var chunks := [p[1..n + 1]] + tail;
      assert chunks[1..] == tail;
      assert p == [p[0]] + p[1..n + 1] + p[n + 1..];
      chunks
  }

  /** The unit tests of `non_empty_subblock`. */
  lemma NonEmptySubblockExamples()
    ensures ParseNonEmptySubblock([0]) == Error([0], Custom(0))
    ensures ParseNonEmptySubblock([1, 2, 3]) == Done([1, 2], [3])
    ensures ParseNonEmptySubblock([2, 3, 4, 5]) == Done([2, 3, 4], [5])
    ensures ParseNonEmptySubblock([5]) == Incomplete(6)
  {
    assert [1, 2, 3][..2] == [1, 2] && [1, 2, 3][2..] == [3];
    assert [2, 3, 4, 5][..3] == [2, 3, 4] && [2, 3, 4, 5][3..] == [5];
  }

  /** The unit tests of `data_subblocks` on chains without chunks. */
  lemma DataSubblocksTerminatorExamples()
    ensures ParseDataSubblocks([0]) == Done(SubBlocks([0]), [])
    ensures ParseDataSubblocks([0, 1, 2, 3]) == Done(SubBlocks([0]), [1, 2, 3])
  {
    DataSubblocksAcceptsChains([0], [0], []);
    DataSubblocksAcceptsChains([0, 1, 2, 3], [0], [1, 2, 3]);
  }

  /** The unit tests of `data_subblocks` on chains with chunks. */
  lemma DataSubblocksChunkExamples()
    ensures ParseDataSubblocks([1, 255, 0]) == Done(SubBlocks([1, 255, 0]), [])
    ensures ParseDataSubblocks([1, 255, 2, 255, 255, 0]) == Done(SubBlocks([1, 255, 2, 255, 255, 0]), [])
    ensures ParseDataSubblocks([2, 255, 255, 0, 1, 2, 3]) == Done(SubBlocks([2, 255, 255, 0]), [1, 2, 3])
  {
    var a: Bytes := [1, 255, 0];
    assert a[2..] == [0];
    DataSubblocksAcceptsChains(a, a, []);
    var b: Bytes := [1, 255, 2, 255, 255, 0];
    assert b[2..][3..] == [0] && b[2..] == [2, 255, 255, 0];
    DataSubblocksAcceptsChains(b, b, []);
    var c: Bytes := [2, 255, 255, 0];
    assert c[3..] == [0];
    assert c + [1, 2, 3] == [2, 255, 255, 0, 1, 2, 3];
    DataSubblocksAcceptsChains(c + [1, 2, 3], c, [1, 2, 3]);
  }

  /** The unit test of `data_subblocks` on a truncated chunk. */
  lemma DataSubblocksTruncatedExample()
    ensures ParseDataSubblocks([5, 6]) == Error([5, 6], Custom(0))
  {
    var s: Bytes := [5, 6];
    assert ParseNonEmptySubblock(s) == Incomplete(6);
    assert SkipChunks(s) == 0;
  }
}
