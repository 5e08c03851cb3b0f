/**
  The older header-only parser of `src/parser.rs`. Its `signature` and
  `version` are the same combinators as in `src/parser/mod.rs`; its `gif`
  reads the packed field and the two ignored bytes with `take!(1)` and tests
  `packed_field[0]`. The model shows that this changes nothing.
*/
module ParserSnapshot {
  import opened Nom
  import opened Gift
  import opened ColorTable
  import Parser

  /** `gif` of `src/parser.rs`. */
  function ParseGifHeader(s: Bytes): (r: Result<Gif>)
    ensures Compare(s, Parser.Signature) == Mismatch ==> r == Error(s, Tag)
    ensures Compare(s, Parser.Signature) == Short ==> r == Incomplete(3)
    ensures r.Done? ==> |s| >= 13 + |r.rest| && s[..3] == Parser.Signature
  {
    var signature :- Parser.ParseSignature(s);
    var version :- Parser.ParseVersion(signature.1);
    var width :- LeU16(version.1);
    var height :- LeU16(width.1);
    var packedField :- Take(1, height.1);
    var backgroundColorIndex :- Take(1, packedField.1);
    var pixelAspectRatio :- Take(1, backgroundColorIndex.1);
    var globalColorTable :- ParseColorTable(packedField.0[0], pixelAspectRatio.1);
    Done(Gif(version.0, width.0, height.0, globalColorTable.0), globalColorTable.1)
  }

  /** `parse_gif` of `src/parser.rs`. */
  function ParseGif(s: Bytes): (r: Outcome<Gif>)
    ensures r.Ok? <==> ParseGifHeader(s).Done?
    ensures r.Ok? ==> r.value == ParseGifHeader(s).value
  {
    match ParseGifHeader(s)
    case Done(gif, _) => Ok(gif)
    case _ => Err
  }

  /** `take!(1)` and `le_u8` succeed and fail alike; the slice holds the byte `le_u8` reads. */
  lemma TakeOneIsLeU8(s: Bytes)
    ensures Take(1, s).Done? <==> LeU8(s).Done?
    ensures Take(1, s).Done? ==> Take(1, s).value[0] == LeU8(s).value && Take(1, s).rest == LeU8(s).rest
    ensures Take(1, s).Incomplete? ==> Take(1, s) == Incomplete(1) && LeU8(s) == Incomplete(1)
  {
  }

  /** The two snapshots of `gif` give the same result, failures included, on every input. */
  lemma GifSnapshotsAgree(s: Bytes)
    ensures ParseGifHeader(s) == Parser.ParseGifHeader(s)
  {
    var signature := Parser.ParseSignature(s);
    if signature.Done? {
      var version := Parser.ParseVersion(signature.rest);
      if version.Done? {
        var width := LeU16(version.rest);
        if width.Done? {
          var height := LeU16(width.rest);
          if height.Done? {
            TakeOneIsLeU8(height.rest);
            var packed := LeU8(height.rest);
            if packed.Done? {
              TakeOneIsLeU8(packed.rest);
              var background := LeU8(packed.rest);
              if background.Done? {
                TakeOneIsLeU8(background.rest);
              }
            }
          }
        }
      }
    }
  }

  /** The two snapshots of `parse_gif` agree on every input. */
  lemma ParseGifSnapshotsAgree(s: Bytes)
    ensures ParseGif(s) == Parser.ParseGif(s)
  {
    GifSnapshotsAgree(s);
  }
}
