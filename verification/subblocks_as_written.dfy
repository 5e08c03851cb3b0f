/**
  `src/parser/subblocks.rs` as written, next to the corrected parsers of
  module `Subblocks`:
  - `n + 1` is computed in `u8`, so a length byte of 255 asks `take!` for
    zero bytes (the release build's wrap-around; a debug build panics there);
    the scan loop then never advances;
  - `input[i]` indexes past the end when the scan stops at the end of the
    input, which panics.
  The loop is run on a `fuel` budget so that its non-termination can be stated.
*/
module SubblocksAsWritten {
  import opened Nom
  import opened Gift
  import Subblocks

  /** How a run of the code as written ends. */
  datatype Run<T> = Returns(value: T) | Panics | OutOfFuel

  /** The `u8` sum `n + 1` of a release build: it wraps around to zero at 255. */
  function WrappingSuccessor(n: byte): (m: byte)
    ensures m == (n + 1) % 256
  {
    if n == 255 then 0 else n + 1
  }

  /** `non_empty_subblock` with the `u8` addition `n + 1` wrapping to zero at 255. */
  function NonEmptySubblockAsWritten(s: Bytes): (r: Result<Bytes>)
    ensures r.Done? ==> |r.value| <= |s| && r.value == s[..|r.value|] && r.rest == s[|r.value|..]
    ensures |s| > 0 && s[0] == 255 ==> r == Done([], s)
  {
    var length :- LeU8(s);
    if length.0 == 0 then Error(s, Custom(0))
    else Take(WrappingSuccessor(length.0), s)
  }

  /** Below a length byte of 255 the wrap-around does not happen and the two versions agree. */
  lemma NonEmptySubblockAgrees(s: Bytes)
    ensures !(|s| > 0 && s[0] == 255) ==> NonEmptySubblockAsWritten(s) == Subblocks.ParseNonEmptySubblock(s)
  {
  }

  /**
    One iteration of the scan loop at offset `i`: on a length byte of 255 the
    chunk taken is empty and the offset stays; where no chunk can be taken the
    loop ends (`None`); otherwise the offset moves past the chunk.
    `NextOffsetIsLoopStep` shows this is the loop body of the source.
  */
  function NextOffsetAsWritten(s: Bytes, i: nat): (r: Option<nat>)
    requires i <= |s|
    ensures r.Some? ==> i <= r.value <= |s|
    ensures r == Some(i) <==> i < |s| && s[i] == 255
    ensures r.None? ==> Subblocks.ChainStops(s, i)
  {
    if i < |s| && s[i] == 255 then Some(i)
    else if Subblocks.ChainStops(s, i) then None
    else Some(i + s[i] + 1)
  }

  /** The scan loop of `data_subblocks` from offset `i`, with at most `fuel` iterations. */
  function ScanAsWritten(s: Bytes, i: nat, fuel: nat): (r: Option<nat>)
    requires i <= |s|
    ensures r.Some? ==> i <= r.value <= |s| && Subblocks.ChainStops(s, r.value)
    decreases fuel
  {
    if fuel == 0 then None
    else
      match NextOffsetAsWritten(s, i)
      case Some(next) => ScanAsWritten(s, next, fuel - 1)
      case None => Some(i)
  }

  /** `data_subblocks` as written: the scan, then `input[i]`, which panics at the end of the input. */
  function DataSubblocksAsWritten(s: Bytes, fuel: nat): (r: Run<Result<SubBlocks>>)
    ensures r.Returns? ==> !r.value.Incomplete?
    ensures r.Returns? && r.value.Done? ==>
              && 0 < |r.value.value.span| && s == r.value.value.span + r.value.rest
              && r.value.value.span[|r.value.value.span| - 1] == 0
    ensures r.Returns? && r.value.Error? ==> r.value == Error(s, Custom(0))
  {
    match ScanAsWritten(s, 0, fuel)
    case None => OutOfFuel
    case Some(i) =>
      if i >= |s| then Panics
      else if s[i] == 0 then Returns(Done(SubBlocks(s[..i + 1]), s[i + 1..]))
      else Returns(Error(s, Custom(0)))
  }

  /**
    `NextOffsetAsWritten` is the loop body `i += subblock.len()` for as long
    as `non_empty_subblock`, as written, succeeds on `&input[i..]`.
  */
  lemma NextOffsetIsLoopStep(s: Bytes, i: nat)
    requires i <= |s|
    ensures var step := NonEmptySubblockAsWritten(s[i..]);
            NextOffsetAsWritten(s, i) == if step.Done? then Some(i + |step.value|) else None
  {
    Subblocks.ChunkAt(s, i);
    NonEmptySubblockAgrees(s[i..]);
  }

  /** A length byte of 255 where the loop looks makes it spin on the same offset for ever. */
  lemma {:induction false} ScanStallsOnFullChunk(s: Bytes, i: nat, fuel: nat)
    requires i < |s| && s[i] == 255
    ensures ScanAsWritten(s, i, fuel) == None
    decreases fuel
  {
    if fuel > 0 {
      ScanStallsOnFullChunk(s, i, fuel - 1);
    }
  }

  /** Whenever the loop as written stops, it stops at the offset-based skip over the chain. */
  lemma {:induction false} ScanAsWrittenStopsLikeSkipFrom(s: Bytes, i: nat, fuel: nat)
    requires i <= |s|
    ensures ScanAsWritten(s, i, fuel).Some? ==> ScanAsWritten(s, i, fuel).value == Subblocks.SkipFrom(s, i)
    decreases fuel
  {
    if fuel > 0 {
      if i < |s| && s[i] == 255 {
        ScanStallsOnFullChunk(s, i, fuel);
      } else if !Subblocks.ChainStops(s, i) {
        ScanAsWrittenStopsLikeSkipFrom(s, i + s[i] + 1, fuel - 1);
      }
    }
  }

  /** Whenever the loop as written ends, it ends where the corrected scan does. */
  lemma ScanAsWrittenStopsLikeSkipChunks(s: Bytes, i: nat, fuel: nat)
    requires i <= |s|
    ensures ScanAsWritten(s, i, fuel).Some? ==> ScanAsWritten(s, i, fuel).value == i + Subblocks.SkipChunks(s[i..])
  {
    ScanAsWrittenStopsLikeSkipFrom(s, i, fuel);
    Subblocks.SkipFromIsSkipChunks(s, i);
  }

  /** Without a 255 length byte anywhere, enough fuel lets the loop as written finish. */
  lemma {:induction false} ScanAsWrittenFinishes(s: Bytes, i: nat, fuel: nat)
    requires i <= |s|
    requires forall k | i <= k < |s| :: s[k] != 255
    requires fuel > |s| - i
    ensures ScanAsWritten(s, i, fuel).Some?
    decreases fuel
  {
    assert i < |s| ==> s[i] != 255;
    if !Subblocks.ChainStops(s, i) {
      ScanAsWrittenFinishes(s, i + s[i] + 1, fuel - 1);
    }
  }

  /**
    When `data_subblocks` as written returns, it returns what the corrected
    parser does; it panics exactly where the corrected scan runs to the end.
  */
  lemma DataSubblocksAsWrittenAgrees(s: Bytes, fuel: nat)
    ensures DataSubblocksAsWritten(s, fuel).Returns? ==>
              DataSubblocksAsWritten(s, fuel).value == Subblocks.ParseDataSubblocks(s)
    ensures DataSubblocksAsWritten(s, fuel).Panics? ==> Subblocks.SkipChunks(s) == |s|
  {
    ScanAsWrittenStopsLikeSkipChunks(s, 0, fuel);
    assert s[0..] == s;
  }

  /** On inputs free of 255 bytes, with enough fuel, the code as written panics or agrees. */
  lemma DataSubblocksAsWrittenAwayFromFullChunks(s: Bytes, fuel: nat)
    requires forall k | 0 <= k < |s| :: s[k] != 255
    requires fuel > |s|
    ensures DataSubblocksAsWritten(s, fuel).Panics? <==> Subblocks.SkipChunks(s) == |s|
    ensures !DataSubblocksAsWritten(s, fuel).Panics? ==>
              DataSubblocksAsWritten(s, fuel) == Returns(Subblocks.ParseDataSubblocks(s))
  {
    ScanAsWrittenFinishes(s, 0, fuel);
    ScanAsWrittenStopsLikeSkipChunks(s, 0, fuel);
    assert s[0..] == s;
  }

  /** An input that starts with a length byte of 255 never gets past the first loop iteration. */
  lemma FullFirstChunkNeverEnds(s: Bytes, fuel: nat)
    requires |s| > 0 && s[0] == 255
    ensures DataSubblocksAsWritten(s, fuel) == OutOfFuel
  {
    ScanStallsOnFullChunk(s, 0, fuel);
  }

  /**
    A well-formed chain with one full 255-byte chunk: the corrected parser
    takes all of it; the code as written spins whatever the budget.
  */
  lemma FullChunkExample(fuel: nat)
    ensures var s := Subblocks.EncodeChain([seq(255, k => 7)]);
            && |s| == 257 && s[0] == 255
            && Subblocks.ParseDataSubblocks(s) == Done(SubBlocks(s), [])
            && DataSubblocksAsWritten(s, fuel) == OutOfFuel
  {
    var chunk: Bytes := seq(255, k => 7);
    var chunks := [chunk];
    assert Subblocks.ValidChunk(chunks[0]);
    var s := Subblocks.EncodeChain(chunks);
    assert chunks[1..] == [];
    assert Subblocks.EncodeChain(chunks[1..]) == [0];
    assert s == [255] + chunk + [0];
    Subblocks.ChainRoundTrip(chunks, []);
    assert s + [] == s;
    FullFirstChunkNeverEnds(s, fuel);
  }

  /**
    An input that ends where a length byte is expected: the code as written
    indexes past the end, the corrected parser reports `Custom(0)`.
  */
  lemma EndOfInputExamples()
    ensures DataSubblocksAsWritten([], 1) == Panics
    ensures Subblocks.ParseDataSubblocks([]) == Error([], Custom(0))
    ensures DataSubblocksAsWritten([1, 7], 2) == Panics
    ensures Subblocks.ParseDataSubblocks([1, 7]) == Error([1, 7], Custom(0))
  {
    var s: Bytes := [1, 7];
    assert s[0..] == s && s[..2] == s && s[2..] == [];
    assert NonEmptySubblockAsWritten(s) == Done(s, []);
    assert ScanAsWritten(s, 2, 1) == Some(2);
    assert Subblocks.SkipChunks(s[2..]) == 0;
    Subblocks.SkipChunksStep(s, 0);
  }
}
