/**
  The header parsers of `src/parser/mod.rs`: the version, the logical screen
  header `gif` with its optional global colour table (sections 17 to 19 of
  the GIF89a specification), and the public entry point `parse_gif`.
  `gif` stops after the header; no block is parsed by it.
*/
module Parser {
  import opened Nom
  import opened Gift
  import opened ColorTable

  /** `"GIF"`. */
  const Signature: Bytes := [0x47, 0x49, 0x46]
  /** `"87a"`. */
  const Version87a: Bytes := [0x38, 0x37, 0x61]
  /** `"89a"`. */
  const Version89a: Bytes := [0x38, 0x39, 0x61]

  /** The three version bytes of each version. */
  function VersionBytes(v: GifVersion): (b: Bytes)
    ensures |b| == 3
  {
    match v
    case GIF87a => Version87a
    case GIF89a => Version89a
  }

  /** `get_version`: total on its input, `Err` for anything but the two version strings. */
  function GetVersion(b: Bytes): (r: Outcome<GifVersion>)
    ensures r.Ok? <==> b == Version87a || b == Version89a
    ensures r.Ok? ==> VersionBytes(r.value) == b
  {
    if b == Version87a then Ok(GIF87a)
    else if b == Version89a then Ok(GIF89a)
    else Err
  }

  /** `get_version` recognises the bytes of every version, and nothing else. */
  lemma GetVersionInverse(b: Bytes, v: GifVersion)
    ensures GetVersion(b) == Ok(v) <==> b == VersionBytes(v)
  {
  }

  /** `signature`: the tag `"GIF"` (inline `tag!("GIF")` in `gif`). */
  function ParseSignature(s: Bytes): (r: Result<Bytes>)
    ensures r.Done? <==> |s| >= 3 && s[..3] == Signature
    ensures r.Done? ==> r.value == Signature && r.rest == s[3..]
    ensures r.Incomplete? <==> |s| < 3 && s == Signature[..|s|]
    ensures r.Error? ==> r == Error(s, Tag)
  {
    TagBytes(Signature, s)
  }

  /**
    `version`: `map_res!(alt!(tag!("87a") | tag!("89a")), get_version)`.
    Three bytes naming a version; a proper prefix of either is `Incomplete`,
    anything else the `alt!` error on the version's input.
  */
  function ParseVersion(s: Bytes): (r: Result<GifVersion>)
    ensures r.Done? <==> |s| >= 3 && GetVersion(s[..3]).Ok?
    ensures r.Done? ==> VersionBytes(r.value) == s[..3] && r.rest == s[3..]
    ensures r.Incomplete? <==> |s| < 3 && (s == Version87a[..|s|] || s == Version89a[..|s|])
    ensures r.Error? ==> r == Error(s, Alt)
  {
    var tag :- OrElse(TagBytes(Version87a, s), OrElse(TagBytes(Version89a, s), Error(s, Alt)));
    match GetVersion(tag.0)
    case Ok(v) => Done(v, tag.1)
    case Err => Error(s, MapRes)
  }

  /**
    `gif`: signature, version, little-endian width and height, the packed
    field, the background colour index and the pixel aspect ratio (13 bytes),
    then the global colour table the packed field announces.
  */
  function ParseGifHeader(s: Bytes): (r: Result<Gif>)
    ensures Compare(s, Signature) == Mismatch ==> r == Error(s, Tag)
    ensures Compare(s, Signature) == Short ==> r == Incomplete(3)
    ensures r.Done? ==> |s| >= 13 + |r.rest| && s[..3] == Signature
  {
    var signature :- ParseSignature(s);
    var version :- ParseVersion(signature.1);
    var width :- LeU16(version.1);
    var height :- LeU16(width.1);
    var packedField :- LeU8(height.1);
    var backgroundColorIndex :- LeU8(packedField.1);
    var pixelAspectRatio :- LeU8(backgroundColorIndex.1);
    var globalColorTable :- ParseColorTable(packedField.0, pixelAspectRatio.1);
    Done(Gif(version.0, width.0, height.0, globalColorTable.0), globalColorTable.1)
  }

  /** The 13 fixed bytes of a header, read field by field. */
  lemma FixedFieldSteps(s: Bytes)
    requires |s| >= 13 && s[..3] == Signature && GetVersion(s[3..6]).Ok?
    ensures ParseSignature(s) == Done(Signature, s[3..])
    ensures ParseVersion(s[3..]) == Done(GetVersion(s[3..6]).value, s[6..])
    ensures LeU16(s[6..]) == Done(LittleEndian(s[6], s[7]), s[8..])
    ensures LeU16(s[8..]) == Done(LittleEndian(s[8], s[9]), s[10..])
    ensures LeU8(s[10..]) == Done(s[10], s[11..])
    ensures LeU8(s[11..]) == Done(s[11], s[12..])
    ensures LeU8(s[12..]) == Done(s[12], s[13..])
  {
    assert s[3..][..3] == s[3..6] && s[3..][3..] == s[6..];
    assert s[6..][2..] == s[8..] && s[8..][2..] == s[10..];
    assert s[10..][1..] == s[11..] && s[11..][1..] == s[12..] && s[12..][1..] == s[13..];
  }

  /** A header is read only from an input with a signature, a version and 13 fixed bytes. */
  lemma FixedFieldsNeeded(s: Bytes)
    requires ParseGifHeader(s).Done?
    ensures |s| >= 13 && s[..3] == Signature && GetVersion(s[3..6]).Ok?
  {
    var afterSignature := ParseSignature(s).rest;
    var afterVersion := ParseVersion(afterSignature).rest;
    assert afterSignature == s[3..] && afterSignature[..3] == s[3..6];
    assert afterVersion == s[6..];
    var afterWidth := LeU16(afterVersion).rest;
    var afterHeight := LeU16(afterWidth).rest;
    var afterPacked := LeU8(afterHeight).rest;
    var afterBackground := LeU8(afterPacked).rest;
    assert LeU8(afterBackground).Done?;
  }

  /**
    The header layout: 13 fixed bytes with the fields at their offsets, then
    the colour table the packed field at offset 10 announces.
  */
  lemma HeaderLayout(s: Bytes)
    ensures ParseGifHeader(s).Done? <==>
              && |s| >= 13 && s[..3] == Signature && GetVersion(s[3..6]).Ok?
              && ParseColorTable(s[10], s[13..]).Done?
    ensures ParseGifHeader(s).Done? ==>
              && var table := ParseColorTable(s[10], s[13..]);
              && ParseGifHeader(s).value
                 == Gif(GetVersion(s[3..6]).value, LittleEndian(s[6], s[7]), LittleEndian(s[8], s[9]), table.value)
              && ParseGifHeader(s).rest == table.rest
  {
    if |s| >= 13 && s[..3] == Signature && GetVersion(s[3..6]).Ok? {
      FixedFieldSteps(s);
    } else if ParseGifHeader(s).Done? {
      FixedFieldsNeeded(s);
    }
  }

  /** `parse_gif`: the header without the remainder; every failure becomes `Err`. */
  function ParseGif(s: Bytes): (r: Outcome<Gif>)
    ensures r.Ok? <==> ParseGifHeader(s).Done?
    ensures r.Ok? ==> r.value == ParseGifHeader(s).value
  {
    match ParseGifHeader(s)
    case Done(gif, _) => Ok(gif)
    case _ => Err
  }

  /** `gif` fails with the signature's tag error on an input that differs from `"GIF"` within its length. */
  lemma HeaderRejectsSignature(s: Bytes)
    requires Compare(s, Signature) == Mismatch
    ensures ParseGifHeader(s) == Error(s, Tag)
  {
  }

  /** `gif` fails with the version's `alt!` error on an unknown version. */
  lemma HeaderRejectsVersion(s: Bytes)
    requires |s| >= 6 && s[..3] == Signature && !GetVersion(s[3..6]).Ok?
    ensures ParseGifHeader(s) == Error(s[3..], Alt)
  {
    assert s[3..][..3] == s[3..6];
  }

  /** A global colour table cut short makes `gif` ask for the whole table. */
  lemma HeaderTableCutShort(s: Bytes)
    requires |s| >= 13 && s[..3] == Signature && GetVersion(s[3..6]).Ok?
    requires s[10] >= 0x80 && |s| < 13 + TableSize(s[10]).value
    ensures ParseGifHeader(s) == Incomplete(TableSize(s[10]).value)
    ensures ParseGif(s) == Err
  {
    FixedFieldSteps(s);
  }

  /** The 13 fixed bytes of a header for `g` with the given packed field and ignored bytes. */
  function EncodeFixedFields(g: Gif, packed: byte, background: byte, aspect: byte): (b: Bytes)
    ensures |b| == 13
  {
    var version, width, height := VersionBytes(g.version), U16Bytes(g.width), U16Bytes(g.height);
    [0x47, 0x49, 0x46, version[0], version[1], version[2], width[0], width[1], height[0], height[1],
     packed, background, aspect]
  }

  /** A whole header: the fixed fields and the global colour table. */
  function EncodeHeader(g: Gif, packed: byte, background: byte, aspect: byte): Bytes {
    EncodeFixedFields(g, packed, background, aspect) + EncodeColorTable(g.globalColorTable)
  }

  /**
    Encoding a header whose packed field announces its table, then parsing,
    gives the header and the remainder back, whatever the two ignored bytes hold.
  */
  lemma HeaderRoundTrip(g: Gif, packed: byte, background: byte, aspect: byte, r: Bytes)
    requires WellFormedTable(packed, g.globalColorTable)
    ensures ParseGifHeader(EncodeHeader(g, packed, background, aspect) + r) == Done(g, r)
  {
    var fixed := EncodeFixedFields(g, packed, background, aspect);
    var tail := EncodeColorTable(g.globalColorTable) + r;
    var s := EncodeHeader(g, packed, background, aspect) + r;
    ConcatAssoc(fixed, EncodeColorTable(g.globalColorTable), r);
    assert s[..13] == fixed && s[13..] == tail;
    assert s[..3] == Signature && GetVersion(s[3..6]) == Ok(g.version) by {
      assert s[..3] == fixed[..3] && s[3..6] == fixed[3..6];
      GetVersionInverse(s[3..6], g.version);
    }
    assert LittleEndian(s[6], s[7]) == g.width && LittleEndian(s[8], s[9]) == g.height by {
      assert s[6] == fixed[6] && s[7] == fixed[7] && s[8] == fixed[8] && s[9] == fixed[9];
      U16RoundTrip(g.width);
      U16RoundTrip(g.height);
    }
    assert s[10] == packed by {
      assert s[10] == fixed[10];
    }
    assert ParseColorTable(packed, tail) == Done(g.globalColorTable, r) by {
      ColorTableEncoding(packed, tail, g.globalColorTable, r);
    }
    HeaderLayout(s);
  }

  /** What `gif` reads is the encoding of its result, with the packed and ignored bytes of the input. */
  lemma HeaderSound(s: Bytes)
    requires ParseGifHeader(s).Done?
    ensures |s| >= 13
    ensures var r := ParseGifHeader(s);
            && WellFormedTable(s[10], r.value.globalColorTable)
            && s == EncodeHeader(r.value, s[10], s[11], s[12]) + r.rest
  {
    HeaderLayout(s);
    var g := ParseGifHeader(s).value;
    var table := ParseColorTable(s[10], s[13..]);
    ColorTableEncoding(s[10], s[13..], table.value, table.rest);
    FixedFieldsOfInput(s, g);
    SplitAt(s, 13);
    ConcatAssoc(s[..13], EncodeColorTable(g.globalColorTable), table.rest);
  }

  /** The fixed fields `gif` decodes encode back to the first 13 input bytes. */
  lemma FixedFieldsOfInput(s: Bytes, g: Gif)
    requires |s| >= 13 && GetVersion(s[3..6]).Ok? && s[..3] == Signature
    requires g.version == GetVersion(s[3..6]).value
    requires g.width == LittleEndian(s[6], s[7]) && g.height == LittleEndian(s[8], s[9])
    ensures EncodeFixedFields(g, s[10], s[11], s[12]) == s[..13]
  {
    LittleEndianInverse(s[6], s[7]);
    LittleEndianInverse(s[8], s[9]);
    var version := VersionBytes(g.version);
    assert version[0] == s[3] && version[1] == s[4] && version[2] == s[5];
    assert s[0] == s[..3][0] && s[1] == s[..3][1] && s[2] == s[..3][2];
  }

  /** `parse_gif` depends on the input only through the header it reads: trailing bytes are ignored. */
  lemma ParseGifIgnoresTrailing(s: Bytes, t: Bytes)
    requires ParseGif(s).Ok?
    ensures ParseGif(s + t) == ParseGif(s)
  {
    HeaderSound(s);
    var r := ParseGifHeader(s);
    var h := EncodeHeader(r.value, s[10], s[11], s[12]);
    ConcatAssoc(h, r.rest, t);
    HeaderRoundTrip(r.value, s[10], s[11], s[12], r.rest + t);
  }

  /** The background colour index and pixel aspect ratio (offsets 11 and 12) do not affect `parse_gif`. */
  lemma ParseGifIgnoresBackgroundAndAspect(s: Bytes, background: byte, aspect: byte)
    requires |s| >= 13
    ensures ParseGif(s[11 := background][12 := aspect]) == ParseGif(s)
  {
    var u := s[11 := background][12 := aspect];
    assert u[..3] == s[..3] && u[3..6] == s[3..6] && u[13..] == s[13..];
    HeaderLayout(s);
    HeaderLayout(u);
  }

  /** The signature and version unit tests (`"blablabla"` is rejected at its start). */
  lemma SignatureAndVersionExamples()
    ensures ParseSignature([0x47, 0x49, 0x46, 0x38, 0x39, 0x61]) == Done(Signature, Version89a)
    ensures ParseSignature([0x62, 0x6C, 0x61, 0x62, 0x6C, 0x61, 0x62, 0x6C, 0x61])
            == Error([0x62, 0x6C, 0x61, 0x62, 0x6C, 0x61, 0x62, 0x6C, 0x61], Tag)
    ensures ParseVersion(Version89a) == Done(GIF89a, [])
    ensures ParseVersion(Version87a) == Done(GIF87a, [])
    ensures ParseVersion([0x31, 0x32, 0x61]) == Error([0x31, 0x32, 0x61], Alt)
  {
    var g: Bytes := [0x47, 0x49, 0x46, 0x38, 0x39, 0x61];
    assert ParseSignature(g) == Done(Signature, Version89a) by {
      assert g[..3] == Signature && g[3..] == Version89a;
    }
    var b: Bytes := [0x62, 0x6C, 0x61, 0x62, 0x6C, 0x61, 0x62, 0x6C, 0x61];
    assert ParseSignature(b) == Error(b, Tag) by {
      MismatchAt(b, Signature, 0);
    }
    assert ParseVersion(Version89a) == Done(GIF89a, []) by {
      assert Version89a[..3] == Version89a;
    }
    assert ParseVersion(Version87a) == Done(GIF87a, []) by {
      assert Version87a[..3] == Version87a;
    }
  }

  /** A 13-byte GIF89a header of a 10 by 10 screen without a global colour table. */
  lemma MinimalHeaderExample()
    ensures ParseGif([0x47, 0x49, 0x46, 0x38, 0x39, 0x61, 0x0A, 0x00, 0x0A, 0x00, 0x00, 0x00, 0x00])
            == Ok(Gif(GIF89a, 10, 10, None))
  {
    var g := Gif(GIF89a, 10, 10, None);
    assert EncodeHeader(g, 0, 0, 0) + [] == [0x47, 0x49, 0x46, 0x38, 0x39, 0x61, 0x0A, 0x00, 0x0A, 0x00, 0x00, 0x00, 0x00];
    HeaderRoundTrip(g, 0, 0, 0, []);
  }
}
