/**
  The block parsers of `src/parser/blocks.rs` (also present, verbatim, as
  `src/parser/mod.rs` lines 23-114): the fixed-layout graphic control
  extension and image descriptor, image data, the four block kinds, and the
  dispatcher `block`, an ordered choice among them.
*/
module Blocks {
  import opened Nom
  import opened Gift
  import opened Subblocks
  import opened ColorTable

  /** Extension introducer and graphic control label (GIF89a section 23). */
  const GceTag: Bytes := [0x21, 0xF9]
  /** Image separator (GIF89a section 20). */
  const DescriptorTag: Bytes := [0x2C]
  /** Extension introducer and plain text label (GIF89a section 25). */
  const TextTag: Bytes := [0x21, 0x01]
  /** Extension introducer and application extension label (GIF89a section 26). */
  const ApplicationTag: Bytes := [0x21, 0xFF]
  /** Extension introducer and comment label (GIF89a section 24). */
  const CommentTag: Bytes := [0x21, 0xFE]
  /** Block terminator (GIF89a section 16). */
  const Terminator: Bytes := [0x00]

  /**
    `graphic_control_extension`: the tag, block size, packed field,
    little-endian delay, transparent index and a zero terminator: 8 bytes.
    The block size byte is read but not checked.
  */
  function ParseGraphicControlExtension(s: Bytes): (r: Result<GraphicControlExtension>)
    ensures r.Done? <==> |s| >= 8 && s[..2] == GceTag && s[7] == 0
    ensures r.Done? ==>
              && r.value == GraphicControlExtension(s[2], s[3], LittleEndian(s[4], s[5]), s[6])
              && r.rest == s[8..]
    ensures r.Incomplete? <==> |s| < 8 && Compare(s, GceTag) != Mismatch
    ensures Compare(s, GceTag) == Mismatch ==> r == Error(s, Tag)
    ensures Compare(s, GceTag) == Short ==> r == Incomplete(2)
    ensures |s| >= 8 && s[..2] == GceTag && s[7] != 0 ==> r == Error(s[7..], Tag)
  {
    var tag :- TagBytes(GceTag, s);
    var byteSize :- LeU8(tag.1);
    var packedField :- LeU8(byteSize.1);
    var delayTime :- LeU16(packedField.1);
    var transparentColorIndex :- LeU8(delayTime.1);
    var terminator :- TagBytes(Terminator, transparentColorIndex.1);
    Done(GraphicControlExtension(byteSize.0, packedField.0, delayTime.0, transparentColorIndex.0),
         terminator.1)
  }

  /**
    `image_descriptor`: the separator `0x2C`, then left, top, width and height
    as little-endian 16-bit values and a packed field: 10 bytes.
  */
  function ParseImageDescriptor(s: Bytes): (r: Result<ImageDescriptor>)
    ensures r.Done? <==> |s| >= 10 && s[0] == 0x2C
    ensures r.Done? ==>
              && r.value == ImageDescriptor(LittleEndian(s[1], s[2]), LittleEndian(s[3], s[4]),
                                            LittleEndian(s[5], s[6]), LittleEndian(s[7], s[8]), s[9])
              && r.rest == s[10..]
    ensures r.Error? <==> |s| > 0 && s[0] != 0x2C
    ensures r.Error? ==> r == Error(s, Tag)
  {
    var tag :- TagBytes(DescriptorTag, s);
    var left :- LeU16(tag.1);
    var top :- LeU16(left.1);
    var width :- LeU16(top.1);
    var height :- LeU16(width.1);
    var packedField :- LeU8(height.1);
    Done(ImageDescriptor(left.0, top.0, width.0, height.0, packedField.0), packedField.1)
  }

  /** `image_data`: the LZW minimum code size, then a sub-block chain. */
  function ParseImageData(s: Bytes): (r: Result<ImageData>)
    ensures r.Done? <==> |s| >= 1 && ParseDataSubblocks(s[1..]).Done?
    ensures r.Done? ==>
              && r.value.lzwMinimumCodeSize == s[0]
              && Done(r.value.data, r.rest) == ParseDataSubblocks(s[1..])
    ensures r.Incomplete? <==> |s| == 0
    ensures r.Error? ==> r == Error(s[1..], Custom(0))
  {
    var lzwMinimumCodeSize :- LeU8(s);
    var data :- ParseDataSubblocks(lzwMinimumCodeSize.1);
    Done(ImageData(lzwMinimumCodeSize.0, data.0), data.1)
  }

  /** The input after the optional graphic control extension that `opt!` takes. */
  function AfterExtension(s: Bytes): Bytes {
    var extension := ParseGraphicControlExtension(s);
    if extension.Done? then extension.rest else s
  }

  /**
    `graphic_block`: an optional control extension, the image descriptor, a
    local colour table when the descriptor's bit 7 is set, and image data.
  */
  function ParseGraphicBlock(s: Bytes): (r: Result<Block>)
    ensures r.Done? ==> r.value.GraphicBlock?
    ensures r.Done? ==> |AfterExtension(s)| > 0 && AfterExtension(s)[0] == 0x2C
    ensures ParseGraphicControlExtension(s).Incomplete? ==> r.Incomplete?
    ensures !ParseGraphicControlExtension(s).Incomplete? && Compare(AfterExtension(s), DescriptorTag) == Mismatch ==>
              r == Error(AfterExtension(s), Tag)
  {
    var extension :- Opt(ParseGraphicControlExtension(s), s);
    ParseImage(extension.0, extension.1)
  }

  /** The steps of `graphic_block` after the optional control extension `e`. */
  function ParseImage(e: Option<GraphicControlExtension>, s: Bytes): (r: Result<Block>)
    ensures r.Done? ==> r.value.GraphicBlock? && r.value.graphicControlExtension == e
    ensures r.Done? ==> |s| > 0 && s[0] == 0x2C
    ensures Compare(s, DescriptorTag) == Mismatch ==> r == Error(s, Tag)
  {
    var descriptor :- ParseImageDescriptor(s);
    var table :- ParseColorTable(descriptor.0.packedField, descriptor.1);
    var data :- ParseImageData(table.1);
    Done(GraphicBlock(e, descriptor.0, table.0, data.0), data.1)
  }

  /** A descriptor cut short after the separator leaves `image` asking for more. */
  lemma ImageShortDescriptor(e: Option<GraphicControlExtension>, s: Bytes)
    requires Compare(s, DescriptorTag) != Mismatch && |s| < 10
    ensures ParseImage(e, s).Incomplete?
  {
    assert ParseImageDescriptor(s).Incomplete?;
  }

  /** An announced local colour table cut short makes `image` ask for the whole table. */
  lemma ImageShortTable(e: Option<GraphicControlExtension>, s: Bytes)
    requires |s| >= 10 && s[0] == 0x2C && |s| < 10 + TableLength(s[9])
    ensures ParseImage(e, s) == Incomplete(TableLength(s[9]))
  {
    var descriptor := ParseImageDescriptor(s);
    assert descriptor.value.packedField == s[9] && descriptor.rest == s[10..];
  }

  /**
    After the descriptor and its table: no byte left asks for the code size,
    otherwise the chain decides between success and `Error(_, Custom(0))`.
  */
  lemma ImageAfterTable(e: Option<GraphicControlExtension>, s: Bytes)
    requires |s| >= 10 && s[0] == 0x2C && |s| >= 10 + TableLength(s[9])
    ensures var afterTable := s[10 + TableLength(s[9])..];
            && (|afterTable| == 0 ==> ParseImage(e, s) == Incomplete(1))
            && (|afterTable| > 0 ==> (ParseImage(e, s).Done? <==> ParseDataSubblocks(afterTable[1..]).Done?))
            && (|afterTable| > 0 && !ParseDataSubblocks(afterTable[1..]).Done? ==>
                  ParseImage(e, s) == Error(afterTable[1..], Custom(0)))
  {
    var descriptor := ParseImageDescriptor(s);
    assert descriptor.value.packedField == s[9] && descriptor.rest == s[10..];
    var table := ParseColorTable(s[9], s[10..]);
    assert table.Done? && table.rest == s[10 + TableLength(s[9])..];
  }

  /**
    Unless the optional control extension asks for more input, `graphic_block`
    is `image` on what follows the extension, carrying the extension if one
    was read.
  */
  lemma GraphicBlockIsImage(s: Bytes)
    requires !ParseGraphicControlExtension(s).Incomplete?
    ensures var g := ParseGraphicControlExtension(s);
            ParseGraphicBlock(s) == ParseImage(if g.Done? then Some(g.value) else None, AfterExtension(s))
  {
  }

  /** A successful graphic block is the four successful steps of `do_parse!`, in order. */
  lemma GraphicBlockSteps(s: Bytes)
    requires ParseGraphicBlock(s).Done?
    ensures var extension := Opt(ParseGraphicControlExtension(s), s);
            && extension.Done?
            && var descriptor := ParseImageDescriptor(extension.rest);
            && descriptor.Done?
            && var table := ParseColorTable(descriptor.value.packedField, descriptor.rest);
            && table.Done?
            && var data := ParseImageData(table.rest);
            && data.Done?
            && ParseGraphicBlock(s) ==
               Done(GraphicBlock(extension.value, descriptor.value, table.value, data.value), data.rest)
  {
  }

  /** Four successful steps of `do_parse!`, in order, make a successful graphic block. */
  lemma GraphicBlockOfSteps(s: Bytes, b: Block, afterExtension: Bytes, afterDescriptor: Bytes,
                            afterTable: Bytes, r: Bytes)
    requires b.GraphicBlock?
    requires Opt(ParseGraphicControlExtension(s), s) == Done(b.graphicControlExtension, afterExtension)
    requires ParseImageDescriptor(afterExtension) == Done(b.imageDescriptor, afterDescriptor)
    requires ParseColorTable(b.imageDescriptor.packedField, afterDescriptor) == Done(b.localColorTable, afterTable)
    requires ParseImageData(afterTable) == Done(b.imageData, r)
    ensures ParseGraphicBlock(s) == Done(b, r)
  {
  }

  /** `plain_text_block`: an optional control extension, the tag `21 01`, and the text chain. */
  function ParsePlainTextBlock(s: Bytes): (r: Result<Block>)
    ensures r.Done? ==> r.value.TextBlock?
    ensures r.Done? ==>
              (r.value.graphicControlExtension.Some? <==> ParseGraphicControlExtension(s).Done?)
    ensures r.Done? ==>
              && var after := AfterExtension(s);
              && |after| >= 2 && after[..2] == TextTag
              && Done(r.value.text, r.rest) == ParseDataSubblocks(after[2..])
    ensures ParseGraphicControlExtension(s).Incomplete? ==> r.Incomplete?
    ensures !ParseGraphicControlExtension(s).Incomplete? && Compare(AfterExtension(s), TextTag) == Mismatch ==>
              r == Error(AfterExtension(s), Tag)
    ensures !ParseGraphicControlExtension(s).Incomplete? && Compare(AfterExtension(s), TextTag) == Short ==>
              r == Incomplete(2)
    ensures var after := AfterExtension(s);
            !ParseGraphicControlExtension(s).Incomplete? && |after| >= 2 && after[..2] == TextTag &&
            !ParseDataSubblocks(after[2..]).Done? ==>
              r == Error(after[2..], Custom(0))
  {
    var extension :- Opt(ParseGraphicControlExtension(s), s);
    var tag :- TagBytes(TextTag, extension.1);
    var text :- ParseDataSubblocks(tag.1);
    Done(TextBlock(extension.0, text.0), text.1)
  }

  /** A successful plain text block is the three successful steps of `do_parse!`, in order. */
  lemma PlainTextBlockSteps(s: Bytes)
    requires ParsePlainTextBlock(s).Done?
    ensures var extension := Opt(ParseGraphicControlExtension(s), s);
            && extension.Done?
            && var tag := TagBytes(TextTag, extension.rest);
            && tag.Done?
            && var text := ParseDataSubblocks(tag.rest);
            && text.Done?
            && ParsePlainTextBlock(s) == Done(TextBlock(extension.value, text.value), text.rest)
  {
  }

  /** Three successful steps of `do_parse!`, in order, make a successful plain text block. */
  lemma PlainTextBlockOfSteps(s: Bytes, b: Block, afterExtension: Bytes, r: Bytes)
    requires b.TextBlock?
    requires Opt(ParseGraphicControlExtension(s), s) == Done(b.graphicControlExtension, afterExtension)
    requires |afterExtension| >= 2 && afterExtension[..2] == TextTag
    requires ParseDataSubblocks(afterExtension[2..]) == Done(b.text, r)
    ensures ParsePlainTextBlock(s) == Done(b, r)
  {
  }

  /** `application_extension`: the tag `21 FF` and a sub-block chain. */
  function ParseApplicationExtension(s: Bytes): (r: Result<Block>)
    ensures r.Done? <==> |s| >= 2 && s[..2] == ApplicationTag && ParseDataSubblocks(s[2..]).Done?
    ensures r.Done? ==>
              && r.value.ApplicationExtension?
              && Done(r.value.data, r.rest) == ParseDataSubblocks(s[2..])
    ensures Compare(s, ApplicationTag) == Mismatch ==> r == Error(s, Tag)
    ensures r.Incomplete? <==> Compare(s, ApplicationTag) == Short
    ensures Compare(s, ApplicationTag) == Short ==> r == Incomplete(2)
    ensures |s| >= 2 && s[..2] == ApplicationTag && !ParseDataSubblocks(s[2..]).Done? ==> r == Error(s[2..], Custom(0))
  {
    var tag :- TagBytes(ApplicationTag, s);
    var data :- ParseDataSubblocks(tag.1);
    Done(ApplicationExtension(data.0), data.1)
  }

  /** `comment_extension`: the tag `21 FE` and a sub-block chain. */
  function ParseCommentExtension(s: Bytes): (r: Result<Block>)
    ensures r.Done? <==> |s| >= 2 && s[..2] == CommentTag && ParseDataSubblocks(s[2..]).Done?
    ensures r.Done? ==>
              && r.value.CommentExtension?
              && Done(r.value.data, r.rest) == ParseDataSubblocks(s[2..])
    ensures Compare(s, CommentTag) == Mismatch ==> r == Error(s, Tag)
    ensures r.Incomplete? <==> Compare(s, CommentTag) == Short
    ensures Compare(s, CommentTag) == Short ==> r == Incomplete(2)
    ensures |s| >= 2 && s[..2] == CommentTag && !ParseDataSubblocks(s[2..]).Done? ==> r == Error(s[2..], Custom(0))
  {
    var tag :- TagBytes(CommentTag, s);
    var data :- ParseDataSubblocks(tag.1);
    Done(CommentExtension(data.0), data.1)
  }

  /** The four alternatives of `block`, in the order the source lists them, applied to `s`. */
  function Alternatives(s: Bytes): seq<Result<Block>> {
    [ParseGraphicBlock(s), ParsePlainTextBlock(s), ParseApplicationExtension(s), ParseCommentExtension(s)]
  }

  /**
    `block`: `alt!(graphic_block | plain_text_block | application_extension | comment_extension)`.
    An alternative's `Incomplete` ends the choice; only `Error` moves on.
  */
  function ParseBlock(s: Bytes): (r: Result<Block>)
    ensures r.Done? ==> r in Alternatives(s)
    ensures r.Error? ==> r == Error(s, Alt)
  {
    OrElse(ParseGraphicBlock(s),
      OrElse(ParsePlainTextBlock(s),
        OrElse(ParseApplicationExtension(s),
          OrElse(ParseCommentExtension(s), Error(s, Alt)))))
  }

  /** `block` is `alt!` over its four alternatives in the source's order. */
  lemma BlockIsAltChoice(s: Bytes)
    ensures ParseBlock(s) == AltChoice(Alternatives(s), s)
  {
    AltChoiceOfFour(ParseGraphicBlock(s), ParsePlainTextBlock(s),
                    ParseApplicationExtension(s), ParseCommentExtension(s), s);
  }

  /**
    `block` is an ordered choice: unless it fails with `Error`, it returns the
    first alternative that does not fail with `Error`, even an `Incomplete`.
  */
  lemma BlockIsFirstNonError(s: Bytes)
    ensures !ParseBlock(s).Error? ==>
              exists k | 0 <= k < 4 ::
                ParseBlock(s) == Alternatives(s)[k] && forall j | 0 <= j < k :: Alternatives(s)[j].Error?
  {
    BlockIsAltChoice(s);
  }

  /** A lone extension introducer: the graphic block's optional extension asks for its two-byte tag. */
  lemma ShortIntroducerIsIncomplete()
    ensures ParseBlock([0x21]) == Incomplete(2)
  {
    var s: Bytes := [0x21];
    assert Compare(s, GceTag) == Short;
  }
}
