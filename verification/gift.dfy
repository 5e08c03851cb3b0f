/**
  The decoded values of the GIF parser: the version and header record of
  `src/lib.rs` (with the global colour table the parser snapshots return),
  and the block records the block parsers build.

  Slices the source borrows from the input (colour tables, sub-block chains)
  are modelled as the byte sequences they view.
*/
module Gift {
  import opened Nom

  datatype GifVersion = GIF89a | GIF87a

  /** The logical screen header; background index and aspect ratio are not kept. */
  datatype Gif = Gif(version: GifVersion, width: u16, height: u16, globalColorTable: Option<Bytes>)

  /** A view over a whole data sub-block chain, length bytes and terminator included. */
  datatype SubBlocks = SubBlocks(span: Bytes)

  datatype GraphicControlExtension = GraphicControlExtension(
    byteSize: byte,
    packedField: byte,
    delayTime: u16,
    transparentColorIndex: byte)

  datatype ImageDescriptor = ImageDescriptor(
    left: u16,
    top: u16,
    width: u16,
    height: u16,
    packedField: byte)

  datatype ImageData = ImageData(lzwMinimumCodeSize: byte, data: SubBlocks)

  datatype Block =
    | GraphicBlock(
        graphicControlExtension: Option<GraphicControlExtension>,
        imageDescriptor: ImageDescriptor,
        localColorTable: Option<Bytes>,
        imageData: ImageData)
    | TextBlock(graphicControlExtension: Option<GraphicControlExtension>, text: SubBlocks)
    | ApplicationExtension(data: SubBlocks)
    | CommentExtension(data: SubBlocks)
}
