/**
  The byte layout the block parsers accept, written as encoders, and the
  correspondence between the two: `block` succeeds on an input exactly when
  the input starts with the encoding of a well-formed block, and then it
  returns that block and the bytes after it. The four alternatives of `block`
  are mutually exclusive, so the order of `alt!` does not change a success.
*/
module BlockEncoding {
  import opened Nom
  import opened Gift
  import opened Subblocks
  import opened ColorTable
  import opened Blocks

  function EncodeGraphicControlExtension(g: GraphicControlExtension): (b: Bytes)
    ensures |b| == 8
  {
    var delay := U16Bytes(g.delayTime);
    [0x21, 0xF9, g.byteSize, g.packedField, delay[0], delay[1], g.transparentColorIndex, 0x00]
  }

  function EncodeImageDescriptor(d: ImageDescriptor): (b: Bytes)
    ensures |b| == 10
  {
    var left, top, width, height := U16Bytes(d.left), U16Bytes(d.top), U16Bytes(d.width), U16Bytes(d.height);
    [0x2C, left[0], left[1], top[0], top[1], width[0], width[1], height[0], height[1], d.packedField]
  }

  function EncodeExtension(e: Option<GraphicControlExtension>): Bytes {
    if e.Some? then EncodeGraphicControlExtension(e.value) else []
  }

  function EncodeImageData(d: ImageData): Bytes {
    [d.lzwMinimumCodeSize] + d.data.span
  }

  function EncodeBlock(b: Block): Bytes {
    match b
    case GraphicBlock(e, d, t, data) =>
      EncodeExtension(e) + (EncodeImageDescriptor(d) + (EncodeColorTable(t) + EncodeImageData(data)))
    case TextBlock(e, text) => EncodeExtension(e) + (TextTag + text.span)
    case ApplicationExtension(data) => ApplicationTag + data.span
    case CommentExtension(data) => CommentTag + data.span
  }

  /** The blocks `block` can return: announced tables of the right size, complete chains. */
  predicate WellFormedBlock(b: Block) {
    match b
    case GraphicBlock(_, d, t, data) => WellFormedTable(d.packedField, t) && IsChain(data.data.span)
    case TextBlock(_, text) => IsChain(text.span)
    case ApplicationExtension(data) => IsChain(data.span)
    case CommentExtension(data) => IsChain(data.span)
  }

  /** `graphic_control_extension` accepts exactly an encoded extension, for any remainder. */
  lemma GraphicControlExtensionEncoding(s: Bytes, g: GraphicControlExtension, r: Bytes)
    ensures ParseGraphicControlExtension(s) == Done(g, r) <==> s == EncodeGraphicControlExtension(g) + r
  {
    var e := EncodeGraphicControlExtension(g);
    if s == e + r {
      U16RoundTrip(g.delayTime);
      assert s[..2] == GceTag;
      assert s[8..] == r;
    }
    if ParseGraphicControlExtension(s) == Done(g, r) {
      LittleEndianInverse(s[4], s[5]);
      assert s[..8] == e;
      assert s == s[..8] + s[8..];
    }
  }

  /** `image_descriptor` accepts exactly an encoded descriptor, for any remainder. */
  lemma ImageDescriptorEncoding(s: Bytes, d: ImageDescriptor, r: Bytes)
    ensures ParseImageDescriptor(s) == Done(d, r) <==> s == EncodeImageDescriptor(d) + r
  {
    var e := EncodeImageDescriptor(d);
    if s == e + r {
      U16RoundTrip(d.left);
      U16RoundTrip(d.top);
      U16RoundTrip(d.width);
      U16RoundTrip(d.height);
      assert s[10..] == r;
    }
    if ParseImageDescriptor(s) == Done(d, r) {
      LittleEndianInverse(s[1], s[2]);
      LittleEndianInverse(s[3], s[4]);
      LittleEndianInverse(s[5], s[6]);
      LittleEndianInverse(s[7], s[8]);
      assert s[..10] == e;
      assert s == s[..10] + s[10..];
    }
  }

  /** An encoded code size byte and complete chain parse as that image data. */
  lemma ImageDataComplete(d: ImageData, r: Bytes)
    requires IsChain(d.data.span)
    ensures ParseImageData(EncodeImageData(d) + r) == Done(d, r)
  {
    var s := EncodeImageData(d) + r;
    assert s[0] == d.lzwMinimumCodeSize;
    assert s[1..] == d.data.span + r;
    DataSubblocksAcceptsChains(s[1..], d.data.span, r);
  }

  /** What `image_data` consumes is a code size byte and a complete chain. */
  lemma ImageDataSound(s: Bytes)
    requires ParseImageData(s).Done?
    ensures var d := ParseImageData(s);
            IsChain(d.value.data.span) && s == EncodeImageData(d.value) + d.rest
  {
    var d := ParseImageData(s);
    var tail := s[1..];
    assert ParseDataSubblocks(tail) == Done(SubBlocks(d.value.data.span), d.rest);
    DataSubblocksAcceptsChains(tail, d.value.data.span, d.rest);
    assert s == [s[0]] + tail;
    ConcatAssoc([s[0]], d.value.data.span, d.rest);
  }

  /** `image_data` accepts exactly a code size byte and a complete chain. */
  lemma ImageDataEncoding(s: Bytes, d: ImageData, r: Bytes)
    ensures ParseImageData(s) == Done(d, r) <==> IsChain(d.data.span) && s == EncodeImageData(d) + r
  {
    if ParseImageData(s) == Done(d, r) {
      ImageDataSound(s);
    }
    if IsChain(d.data.span) && s == EncodeImageData(d) + r {
      ImageDataComplete(d, r);
    }
  }

  /** After an encoded optional extension, `opt!` returns it and stops where the next tag starts. */
  lemma ExtensionPrefix(e: Option<GraphicControlExtension>, t: Bytes)
    requires Compare(t, GceTag) == Mismatch
    ensures Opt(ParseGraphicControlExtension(EncodeExtension(e) + t), EncodeExtension(e) + t) == Done(e, t)
  {
    var s := EncodeExtension(e) + t;
    if e.Some? {
      GraphicControlExtensionEncoding(s, e.value, t);
    } else {
      assert s == t;
    }
  }

  /** What `opt!` consumes for the control extension is an encoded optional extension. */
  lemma ExtensionSplit(s: Bytes)
    requires Opt(ParseGraphicControlExtension(s), s).Done?
    ensures var o := Opt(ParseGraphicControlExtension(s), s);
            s == EncodeExtension(o.value) + o.rest
  {
    var g := ParseGraphicControlExtension(s);
    if g.Done? {
      GraphicControlExtensionEncoding(s, g.value, g.rest);
    }
  }

  /** Regrouping a right-nested concatenation followed by a remainder. */
  lemma Regroup(a: Bytes, b: Bytes, c: Bytes, d: Bytes, r: Bytes)
    ensures (a + (b + (c + d))) + r == a + (b + (c + (d + r)))
  {
  }

  /** What `graphic_block` reads is the encoding of the well-formed block it returns, then the rest. */
  lemma GraphicBlockSound(s: Bytes)
    requires ParseGraphicBlock(s).Done?
    ensures var r := ParseGraphicBlock(s);
            WellFormedBlock(r.value) && s == EncodeBlock(r.value) + r.rest
  {
    GraphicBlockSteps(s);
    var ext := Opt(ParseGraphicControlExtension(s), s);
    ExtensionSplit(s);
    var descriptor := ParseImageDescriptor(ext.rest);
    ImageDescriptorEncoding(ext.rest, descriptor.value, descriptor.rest);
    var packed := descriptor.value.packedField;
    var table := ParseColorTable(packed, descriptor.rest);
    ColorTableEncoding(packed, descriptor.rest, table.value, table.rest);
    var data := ParseImageData(table.rest);
    ImageDataEncoding(table.rest, data.value, data.rest);
    Regroup(EncodeExtension(ext.value), EncodeImageDescriptor(descriptor.value),
            EncodeColorTable(table.value), EncodeImageData(data.value), data.rest);
  }

  /** Every well-formed graphic block, encoded and followed by anything, is read back by `graphic_block`. */
  lemma GraphicBlockComplete(b: Block, r: Bytes)
    requires b.GraphicBlock? && WellFormedBlock(b)
    ensures ParseGraphicBlock(EncodeBlock(b) + r) == Done(b, r)
  {
    var i := EncodeImageData(b.imageData) + r;
    var t2 := EncodeColorTable(b.localColorTable) + i;
    var t1 := EncodeImageDescriptor(b.imageDescriptor) + t2;
    var s := EncodeExtension(b.graphicControlExtension) + t1;
    Regroup(EncodeExtension(b.graphicControlExtension), EncodeImageDescriptor(b.imageDescriptor),
            EncodeColorTable(b.localColorTable), EncodeImageData(b.imageData), r);
    assert EncodeBlock(b) + r == s;
    MismatchAt(t1, GceTag, 0);
    ExtensionPrefix(b.graphicControlExtension, t1);
    ImageDescriptorEncoding(t1, b.imageDescriptor, t2);
    ColorTableEncoding(b.imageDescriptor.packedField, t2, b.localColorTable, i);
    ImageDataComplete(b.imageData, r);
    GraphicBlockOfSteps(s, b, t1, t2, i, r);
  }

  /** A successful tag `21 01` and chain lay out the tag, the chain and the rest. */
  lemma TextTagAndChainSplit(after: Bytes, text: SubBlocks, r: Bytes)
    requires TagBytes(TextTag, after).Done? && ParseDataSubblocks(TagBytes(TextTag, after).rest) == Done(text, r)
    ensures IsChain(text.span) && after == (TextTag + text.span) + r
  {
    assert TagBytes(TextTag, after).rest == after[2..];
    TaggedChainEncoding(TextTag, after, text.span, r);
  }

  /** The successful steps of `plain_text_block` lay out the encoding of the block they build. */
  lemma TextBlockParts(s: Bytes, e: Option<GraphicControlExtension>, after: Bytes, text: SubBlocks, r: Bytes)
    requires Opt(ParseGraphicControlExtension(s), s) == Done(e, after)
    requires TagBytes(TextTag, after).Done? && ParseDataSubblocks(TagBytes(TextTag, after).rest) == Done(text, r)
    ensures IsChain(text.span) && s == EncodeBlock(TextBlock(e, text)) + r
  {
    ExtensionSplit(s);
    TextTagAndChainSplit(after, text, r);
    ConcatAssoc(EncodeExtension(e), TextTag + text.span, r);
  }

  /** What `plain_text_block` reads is the encoding of the well-formed block it returns, then the rest. */
  lemma TextBlockSound(s: Bytes)
    requires ParsePlainTextBlock(s).Done?
    ensures var r := ParsePlainTextBlock(s);
            WellFormedBlock(r.value) && s == EncodeBlock(r.value) + r.rest
  {
    PlainTextBlockSteps(s);
    var ext := Opt(ParseGraphicControlExtension(s), s);
    var text := ParseDataSubblocks(TagBytes(TextTag, ext.rest).rest);
    TextBlockParts(s, ext.value, ext.rest, text.value, text.rest);
  }

  /** In an encoded text block, `opt!` reads the block's own extension and stops at the tag. */
  lemma TextBlockExtension(b: Block, r: Bytes)
    requires b.TextBlock?
    ensures var s := EncodeBlock(b) + r;
            Opt(ParseGraphicControlExtension(s), s) == Done(b.graphicControlExtension, TextTag + (b.text.span + r))
  {
    var t1 := TextTag + (b.text.span + r);
    assert EncodeBlock(b) + r == EncodeExtension(b.graphicControlExtension) + t1;
    MismatchAt(t1, GceTag, 1);
    ExtensionPrefix(b.graphicControlExtension, t1);
  }

  /** After the extension of an encoded text block come the tag `21 01` and the block's own chain. */
  lemma TextBlockTagAndChain(b: Block, r: Bytes)
    requires b.TextBlock? && IsChain(b.text.span)
    ensures var t1 := TextTag + (b.text.span + r);
            |t1| >= 2 && t1[..2] == TextTag && ParseDataSubblocks(t1[2..]) == Done(b.text, r)
  {
    var t1 := TextTag + (b.text.span + r);
    assert t1[2..] == b.text.span + r;
    DataSubblocksAcceptsChains(t1[2..], b.text.span, r);
  }

  /** Every well-formed text block, encoded and followed by anything, is read back by `plain_text_block`. */
  lemma TextBlockComplete(b: Block, r: Bytes)
    requires b.TextBlock? && WellFormedBlock(b)
    ensures ParsePlainTextBlock(EncodeBlock(b) + r) == Done(b, r)
  {
    TextBlockExtension(b, r);
    TextBlockTagAndChain(b, r);
    PlainTextBlockOfSteps(EncodeBlock(b) + r, b, TextTag + (b.text.span + r), r);
  }

  /** Shared by the two extensions that are a tag and a chain. */
  lemma TaggedChainEncoding(tag: Bytes, s: Bytes, span: Bytes, r: Bytes)
    requires |tag| == 2
    ensures (|s| >= 2 && s[..2] == tag && ParseDataSubblocks(s[2..]) == Done(SubBlocks(span), r))
            <==> IsChain(span) && s == (tag + span) + r
  {
    assert (tag + span) + r == tag + (span + r);
    if |s| >= 2 {
      DataSubblocksAcceptsChains(s[2..], span, r);
      assert s == s[..2] + s[2..];
    }
    if s == tag + (span + r) {
      assert s[..2] == tag && s[2..] == span + r;
    }
  }

  /** `graphic_block` succeeds exactly on the encoding of a well-formed graphic block. */
  lemma GraphicBlockEncoding(s: Bytes, b: Block, r: Bytes)
    ensures ParseGraphicBlock(s) == Done(b, r) <==> b.GraphicBlock? && WellFormedBlock(b) && s == EncodeBlock(b) + r
  {
    if ParseGraphicBlock(s).Done? {
      GraphicBlockSound(s);
    }
    if b.GraphicBlock? && WellFormedBlock(b) && s == EncodeBlock(b) + r {
      GraphicBlockComplete(b, r);
    }
  }

  /** `plain_text_block` succeeds exactly on the encoding of a well-formed text block. */
  lemma TextBlockEncoding(s: Bytes, b: Block, r: Bytes)
    ensures ParsePlainTextBlock(s) == Done(b, r) <==> b.TextBlock? && WellFormedBlock(b) && s == EncodeBlock(b) + r
  {
    if ParsePlainTextBlock(s).Done? {
      TextBlockSound(s);
    }
    if b.TextBlock? && WellFormedBlock(b) && s == EncodeBlock(b) + r {
      TextBlockComplete(b, r);
    }
  }

  /** Each alternative of `block` succeeds exactly on the encoding of a well-formed block of its kind. */
  lemma AlternativeEncoding(s: Bytes, k: nat, b: Block, r: Bytes)
    requires k < 4
    ensures Alternatives(s)[k] == Done(b, r) <==>
              && WellFormedBlock(b) && s == EncodeBlock(b) + r
              && (k == 0 ==> b.GraphicBlock?) && (k == 1 ==> b.TextBlock?)
              && (k == 2 ==> b.ApplicationExtension?) && (k == 3 ==> b.CommentExtension?)
  {
    if k == 0 {
      GraphicBlockEncoding(s, b, r);
    } else if k == 1 {
      TextBlockEncoding(s, b, r);
    } else if k == 2 {
      if b.ApplicationExtension? {
        TaggedChainEncoding(ApplicationTag, s, b.data.span, r);
      }
    } else {
      if b.CommentExtension? {
        TaggedChainEncoding(CommentTag, s, b.data.span, r);
      }
    }
  }

  /** When `graphic_block` succeeds, the other three alternatives fail with `Error`. */
  lemma GraphicBlockExcludes(s: Bytes)
    ensures ParseGraphicBlock(s).Done? ==>
              ParsePlainTextBlock(s).Error? && ParseApplicationExtension(s).Error? && ParseCommentExtension(s).Error?
  {
    if ParseGraphicBlock(s).Done? {
      MismatchAt(AfterExtension(s), TextTag, 0);
      if ParseGraphicControlExtension(s).Done? {
        assert s[1] == s[..2][1];
        MismatchAt(s, ApplicationTag, 1);
        MismatchAt(s, CommentTag, 1);
      } else {
        MismatchAt(s, ApplicationTag, 0);
        MismatchAt(s, CommentTag, 0);
      }
    }
  }

  /** When `plain_text_block` succeeds, the other three alternatives fail with `Error`. */
  lemma PlainTextBlockExcludes(s: Bytes)
    ensures ParsePlainTextBlock(s).Done? ==>
              ParseGraphicBlock(s).Error? && ParseApplicationExtension(s).Error? && ParseCommentExtension(s).Error?
  {
    if ParsePlainTextBlock(s).Done? {
      var after := AfterExtension(s);
      assert after[0] == after[..2][0] && after[1] == after[..2][1];
      MismatchAt(after, DescriptorTag, 0);
      if ParseGraphicControlExtension(s).Done? {
        assert s[1] == s[..2][1];
      }
      MismatchAt(s, ApplicationTag, 1);
      MismatchAt(s, CommentTag, 1);
    }
  }

  /** When `application_extension` succeeds, the other three alternatives fail with `Error`. */
  lemma ApplicationExtensionExcludes(s: Bytes)
    ensures ParseApplicationExtension(s).Done? ==>
              ParseGraphicBlock(s).Error? && ParsePlainTextBlock(s).Error? && ParseCommentExtension(s).Error?
  {
    if ParseApplicationExtension(s).Done? {
      assert s[0] == s[..2][0] && s[1] == s[..2][1];
      MismatchAt(s, GceTag, 1);
      MismatchAt(s, DescriptorTag, 0);
      MismatchAt(s, TextTag, 1);
      MismatchAt(s, CommentTag, 1);
    }
  }

  /** When `comment_extension` succeeds, the other three alternatives fail with `Error`. */
  lemma CommentExtensionExcludes(s: Bytes)
    ensures ParseCommentExtension(s).Done? ==>
              ParseGraphicBlock(s).Error? && ParsePlainTextBlock(s).Error? && ParseApplicationExtension(s).Error?
  {
    if ParseCommentExtension(s).Done? {
      assert s[0] == s[..2][0] && s[1] == s[..2][1];
      MismatchAt(s, GceTag, 1);
      MismatchAt(s, DescriptorTag, 0);
      MismatchAt(s, TextTag, 1);
      MismatchAt(s, ApplicationTag, 1);
    }
  }

  /** Pairwise exclusion of four results, restated over positions in their list. */
  lemma ExclusiveOfFour(a: Result<Block>, b: Result<Block>, c: Result<Block>, d: Result<Block>)
    requires a.Done? ==> b.Error? && c.Error? && d.Error?
    requires b.Done? ==> a.Error? && c.Error? && d.Error?
    requires c.Done? ==> a.Error? && b.Error? && d.Error?
    requires d.Done? ==> a.Error? && b.Error? && c.Error?
    ensures var l := [a, b, c, d];
            forall i, j | 0 <= i < 4 && 0 <= j < 4 && i != j && l[i].Done? :: l[j].Error?
  {
  }

  /** At most one alternative of `block` succeeds, and then every other one fails with `Error`. */
  lemma AlternativesExclusive(s: Bytes)
    ensures |Alternatives(s)| == 4
    ensures forall i, j | 0 <= i < 4 && 0 <= j < 4 && i != j && Alternatives(s)[i].Done? ::
              Alternatives(s)[j].Error?
  {
    GraphicBlockExcludes(s);
    PlainTextBlockExcludes(s);
    ApplicationExtensionExcludes(s);
    CommentExtensionExcludes(s);
    ExclusiveOfFour(ParseGraphicBlock(s), ParsePlainTextBlock(s),
                    ParseApplicationExtension(s), ParseCommentExtension(s));
  }

  /** The position in `Alternatives` of the parser that builds blocks of `b`'s kind. */
  function KindIndex(b: Block): (k: nat)
    ensures k < 4
  {
    match b
    case GraphicBlock(_, _, _, _) => 0
    case TextBlock(_, _) => 1
    case ApplicationExtension(_) => 2
    case CommentExtension(_) => 3
  }

  /**
    `block` returns `b` and the remainder `r` exactly when the input is the
    encoding of the well-formed block `b` followed by `r`.
  */
  lemma BlockEncodingTheorem(s: Bytes, b: Block, r: Bytes)
    ensures ParseBlock(s) == Done(b, r) <==> WellFormedBlock(b) && s == EncodeBlock(b) + r
  {
    if ParseBlock(s) == Done(b, r) {
      var k :| 0 <= k < 4 && Alternatives(s)[k] == Done(b, r);
      AlternativeEncoding(s, k, b, r);
    }
    if WellFormedBlock(b) && s == EncodeBlock(b) + r {
      var k := KindIndex(b);
      AlternativeEncoding(s, k, b, r);
      AlternativesExclusive(s);
      AltChoiceUnique(Alternatives(s), s, k);
      BlockIsAltChoice(s);
    }
  }

  /** Encoding a well-formed block and parsing it back gives the block and what followed it. */
  lemma BlockRoundTrip(b: Block, r: Bytes)
    requires WellFormedBlock(b)
    ensures ParseBlock(EncodeBlock(b) + r) == Done(b, r)
  {
    BlockEncodingTheorem(EncodeBlock(b) + r, b, r);
  }

  /** `block` fails with `Error` only when every alternative fails with `Error`. */
  lemma BlockErrorMeansAllError(s: Bytes)
    requires ParseBlock(s).Error?
    ensures forall k | 0 <= k < 4 :: Alternatives(s)[k].Error?
  {
    BlockIsAltChoice(s);
  }

  /**
    Rearranging the alternatives of `alt!` does not change a success or an
    `Error`: the alternatives exclude one another. (It can change which
    `Incomplete` is reported; see `IncompleteDependsOnOrder`.)
  */
  lemma BlockOrderIrrelevant(s: Bytes, alternatives: seq<Result<Block>>)
    requires multiset(alternatives) == multiset(Alternatives(s))
    ensures !ParseBlock(s).Incomplete? ==> AltChoice(alternatives, s) == ParseBlock(s)
  {
    AlternativesExclusive(s);
    AltChoiceReordered(Alternatives(s), alternatives, s);
    BlockIsAltChoice(s);
  }

  /**
    A lone graphic control extension: the graphic block asks for one more
    byte (the image separator), the plain text block for two (its tag).
  */
  lemma IncompleteDependsOnOrder()
    ensures var s: Bytes := [0x21, 0xF9, 0x04, 0x00, 0x00, 0x00, 0x00, 0x00];
            && ParseGraphicBlock(s) == Incomplete(1)
            && ParsePlainTextBlock(s) == Incomplete(2)
            && ParseBlock(s) == Incomplete(1)
  {
    var s: Bytes := [0x21, 0xF9, 0x04, 0x00, 0x00, 0x00, 0x00, 0x00];
    assert s[..2] == GceTag;
    assert ParseGraphicControlExtension(s).rest == [];
  }

  /** The unit test of `graphic_control_extension`: delay bytes `64 00` are 100. */
  lemma GraphicControlExtensionExample()
    ensures ParseGraphicControlExtension([0x21, 0xF9, 0x04, 0x01, 0x64, 0x00, 0x02, 0x00])
            == Done(GraphicControlExtension(4, 0x01, 100, 2), [])
  {
    var g := GraphicControlExtension(4, 0x01, 100, 2);
    assert EncodeGraphicControlExtension(g) + [] == [0x21, 0xF9, 0x04, 0x01, 0x64, 0x00, 0x02, 0x00];
    GraphicControlExtensionEncoding(EncodeGraphicControlExtension(g) + [], g, []);
  }

  /** The unit test of `image_descriptor`. */
  lemma ImageDescriptorExample()
    ensures ParseImageDescriptor([0x2C, 0x01, 0x00, 0x02, 0x00, 0x05, 0x00, 0x06, 0x00, 0x81])
            == Done(ImageDescriptor(1, 2, 5, 6, 0x81), [])
  {
    var d := ImageDescriptor(1, 2, 5, 6, 0x81);
    assert EncodeImageDescriptor(d) + [] == [0x2C, 0x01, 0x00, 0x02, 0x00, 0x05, 0x00, 0x06, 0x00, 0x81];
    ImageDescriptorEncoding(EncodeImageDescriptor(d) + [], d, []);
  }

  /** The chain of the `image_data` unit tests: a 2-byte and a 3-byte chunk. */
  lemma ImageDataExampleChain(chain: Bytes)
    requires chain == [2, 255, 255, 3, 255, 255, 255, 0]
    ensures IsChain(chain)
  {
    assert chain[3..] == [3, 255, 255, 255, 0] && chain[3..][4..] == [0];
  }

  /** The unit test of `image_data` on a chain that ends the input. */
  lemma ImageDataExample()
    ensures var data: Bytes := [1, 2, 255, 255, 3, 255, 255, 255, 0];
            ParseImageData(data) == Done(ImageData(1, SubBlocks(data[1..])), [])
  {
    var data: Bytes := [1, 2, 255, 255, 3, 255, 255, 255, 0];
    var chain := data[1..];
    ImageDataExampleChain(chain);
    assert data == EncodeImageData(ImageData(1, SubBlocks(chain))) + [];
    ImageDataComplete(ImageData(1, SubBlocks(chain)), []);
  }

  /** The unit test of `image_data` on a chain followed by more bytes. */
  lemma ImageDataRemainderExample()
    ensures var data: Bytes := [3, 2, 255, 255, 3, 255, 255, 255, 0, 1, 2, 3];
            ParseImageData(data) == Done(ImageData(3, SubBlocks(data[1..9])), [1, 2, 3])
  {
    var data: Bytes := [3, 2, 255, 255, 3, 255, 255, 255, 0, 1, 2, 3];
    var chain := data[1..9];
    ImageDataExampleChain(chain);
    assert data == EncodeImageData(ImageData(3, SubBlocks(chain))) + [1, 2, 3];
    ImageDataComplete(ImageData(3, SubBlocks(chain)), [1, 2, 3]);
  }

  /** The image data chain of the `graphic_block` unit test: one 22-byte chunk. */
  lemma ImageExampleChain(chain: Bytes)
    requires chain == [0x16, 0x8C, 0x2D, 0x99, 0x87, 0x2A, 0x1C, 0xDC, 0x33, 0xA0, 0x02, 0x75, 0xEC, 0x95,
                       0xFA, 0xA8, 0xDE, 0x60, 0x8C, 0x04, 0x91, 0x4C, 0x01, 0x00]
    ensures IsChain(chain)
  {
    assert chain[23..] == [0];
  }

  /** The text chain of the `plain_text_block` unit test: a 12-byte and an 11-byte chunk. */
  lemma TextExampleChain(chain: Bytes)
    requires chain == [0x0C, 0x00, 0x00, 0x00, 0x00, 0x64, 0x00, 0x64, 0x00, 0x14, 0x14, 0x01,
                       0x00, 0x0B, 0x68, 0x65, 0x6C, 0x6C, 0x6F, 0x20, 0x77, 0x6F, 0x72, 0x6C, 0x64, 0x00]
    ensures IsChain(chain)
  {
    assert chain[13..] == [0x0B, 0x68, 0x65, 0x6C, 0x6C, 0x6F, 0x20, 0x77, 0x6F, 0x72, 0x6C, 0x64, 0x00];
    assert chain[13..][12..] == [0];
  }

  /** The control extension of the `graphic_block` unit test, before anything. */
  lemma ExampleExtensionPrefix(s: Bytes)
    requires |s| >= 8 && s[..8] == [0x21, 0xF9, 0x04, 0x00, 0x00, 0x00, 0x00, 0x00]
    ensures ParseGraphicControlExtension(s) == Done(GraphicControlExtension(4, 0, 0, 0), s[8..])
  {
    assert s[..2] == s[..8][..2];
    assert s[2] == s[..8][2] && s[3] == s[..8][3] && s[4] == s[..8][4];
    assert s[5] == s[..8][5] && s[6] == s[..8][6] && s[7] == s[..8][7];
  }

  /** The image descriptor of the `graphic_block` unit test, before anything. */
  lemma ExampleDescriptorPrefix(s: Bytes)
    requires |s| >= 10 && s[..10] == [0x2C, 0x00, 0x00, 0x00, 0x00, 0x0A, 0x00, 0x0A, 0x00, 0x00]
    ensures ParseImageDescriptor(s) == Done(ImageDescriptor(0, 0, 10, 10, 0), s[10..])
  {
    assert s[0] == s[..10][0] && s[1] == s[..10][1] && s[2] == s[..10][2] && s[3] == s[..10][3];
    assert s[4] == s[..10][4] && s[5] == s[..10][5] && s[6] == s[..10][6] && s[7] == s[..10][7];
    assert s[8] == s[..10][8] && s[9] == s[..10][9];
  }

  /** The image data of the `graphic_block` unit test, before nothing. */
  lemma ExampleImageData(s: Bytes)
    requires |s| == 25 && s[0] == 0x02
    requires s[1..] == [0x16, 0x8C, 0x2D, 0x99, 0x87, 0x2A, 0x1C, 0xDC, 0x33, 0xA0, 0x02, 0x75, 0xEC, 0x95,
                        0xFA, 0xA8, 0xDE, 0x60, 0x8C, 0x04, 0x91, 0x4C, 0x01, 0x00]
    ensures ParseImageData(s) == Done(ImageData(2, SubBlocks(s[1..])), [])
  {
    ImageExampleChain(s[1..]);
    var i := ImageData(2, SubBlocks(s[1..]));
    assert s == EncodeImageData(i) + [];
    ImageDataComplete(i, []);
  }

  /**
    The unit test of `graphic_block`, its input given part by part: a control
    extension, a descriptor without local table, the code size and one chunk.
  */
  lemma GraphicBlockExample(data: Bytes)
    requires |data| == 43
    requires data[..8] == [0x21, 0xF9, 0x04, 0x00, 0x00, 0x00, 0x00, 0x00]
    requires data[8..18] == [0x2C, 0x00, 0x00, 0x00, 0x00, 0x0A, 0x00, 0x0A, 0x00, 0x00]
    requires data[18] == 0x02
    requires data[19..] == [0x16, 0x8C, 0x2D, 0x99, 0x87, 0x2A, 0x1C, 0xDC, 0x33, 0xA0, 0x02, 0x75, 0xEC, 0x95,
                            0xFA, 0xA8, 0xDE, 0x60, 0x8C, 0x04, 0x91, 0x4C, 0x01, 0x00]
    ensures ParseBlock(data) == Done(
              GraphicBlock(Some(GraphicControlExtension(4, 0, 0, 0)),
                           ImageDescriptor(0, 0, 10, 10, 0),
                           None,
                           ImageData(2, SubBlocks(data[19..]))),
              [])
  {
    var afterExtension, afterDescriptor := data[8..], data[18..];
    ExampleExtensionPrefix(data);
    assert afterExtension[..10] == data[8..18];
    assert afterExtension[10..] == afterDescriptor;
    ExampleDescriptorPrefix(afterExtension);
    assert afterDescriptor[1..] == data[19..];
    ExampleImageData(afterDescriptor);
    var b := GraphicBlock(Some(GraphicControlExtension(4, 0, 0, 0)), ImageDescriptor(0, 0, 10, 10, 0), None,
                          ImageData(2, SubBlocks(data[19..])));
    GraphicBlockOfSteps(data, b, afterExtension, afterDescriptor, afterDescriptor, []);
  }

  /** The `plain_text_block` unit test's input is an encoded text block. */
  lemma PlainTextExampleParsed(data: Bytes)
    requires |data| == 28 && data[..2] == TextTag
    requires data[2..] == [0x0C, 0x00, 0x00, 0x00, 0x00, 0x64, 0x00, 0x64, 0x00, 0x14, 0x14, 0x01,
                           0x00, 0x0B, 0x68, 0x65, 0x6C, 0x6C, 0x6F, 0x20, 0x77, 0x6F, 0x72, 0x6C, 0x64, 0x00]
    ensures ParsePlainTextBlock(data) == Done(TextBlock(None, SubBlocks(data[2..])), [])
  {
    var b := TextBlock(None, SubBlocks(data[2..]));
    TextExampleChain(data[2..]);
    assert EncodeBlock(b) + [] == data[..2] + data[2..];
    TextBlockComplete(b, []);
  }

  /** The unit test of `plain_text_block`. */
  lemma PlainTextBlockExample(data: Bytes)
    requires |data| == 28 && data[..2] == [0x21, 0x01]
    requires data[2..] == [0x0C, 0x00, 0x00, 0x00, 0x00, 0x64, 0x00, 0x64, 0x00, 0x14, 0x14, 0x01,
                           0x00, 0x0B, 0x68, 0x65, 0x6C, 0x6C, 0x6F, 0x20, 0x77, 0x6F, 0x72, 0x6C, 0x64, 0x00]
    ensures ParseBlock(data) == Done(TextBlock(None, SubBlocks(data[2..])), [])
  {
    PlainTextExampleParsed(data);
    PlainTextBlockExcludes(data);
  }

  /** The unit test of `application_extension`. */
  lemma ApplicationExtensionExample()
    ensures var data: Bytes := [
              0x21, 0xFF, 0x0B, 0x4E, 0x45, 0x54, 0x53, 0x43, 0x41, 0x50, 0x45, 0x32, 0x2E, 0x30,
              0x03, 0x01, 0x05, 0x00, 0x00];
            ParseBlock(data) == Done(ApplicationExtension(SubBlocks(data[2..])), [])
  {
    var data: Bytes := [
      0x21, 0xFF, 0x0B, 0x4E, 0x45, 0x54, 0x53, 0x43, 0x41, 0x50, 0x45, 0x32, 0x2E, 0x30,
      0x03, 0x01, 0x05, 0x00, 0x00];
    var application := data[2..];
    assert ParseDataSubblocks(application) == Done(SubBlocks(application), []) by {
      assert application[12..] == [0x03, 0x01, 0x05, 0x00, 0x00] && application[12..][4..] == [0];
      assert IsChain(application);
      DataSubblocksAcceptsChains(application, application, []);
    }
    assert data[..2] == ApplicationTag;
    ApplicationExtensionExcludes(data);
  }

  /** The unit test of `comment_extension`. */
  lemma CommentExtensionExample()
    ensures var data: Bytes := [
              0x21, 0xFE, 0x09, 0x62, 0x6C, 0x75, 0x65, 0x62, 0x65, 0x72, 0x72, 0x79, 0x00];
            ParseBlock(data) == Done(CommentExtension(SubBlocks(data[2..])), [])
  {
    var data: Bytes := [
      0x21, 0xFE, 0x09, 0x62, 0x6C, 0x75, 0x65, 0x62, 0x65, 0x72, 0x72, 0x79, 0x00];
    var comment := data[2..];
    assert ParseDataSubblocks(comment) == Done(SubBlocks(comment), []) by {
      assert comment[10..] == [0];
      assert IsChain(comment);
      DataSubblocksAcceptsChains(comment, comment, []);
    }
    assert data[..2] == CommentTag;
    CommentExtensionExcludes(data);
  }

  /** The trailer byte `0x3B` starts no block: every alternative fails with `Error`. */
  lemma TrailerIsNoBlock()
    ensures ParseBlock([0x3B]) == Error([0x3B], Alt)
  {
    var s: Bytes := [0x3B];
    MismatchAt(s, GceTag, 0);
    MismatchAt(s, DescriptorTag, 0);
    MismatchAt(s, TextTag, 0);
    MismatchAt(s, ApplicationTag, 0);
    MismatchAt(s, CommentTag, 0);
  }
}
