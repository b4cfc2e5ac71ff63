/** Huffman/Huffman/HuffmanCompressedFile.cs: what either strategy produces for one
    file, the frequency table and the encoded payload. (`FileName` is never
    written to the archive and is not modelled.) */
module CompressedFiles {
  import opened Base
  import opened Frequency

  datatype HuffmanCompressedFile = HuffmanCompressedFile(frequencyTable: Table, encodedData: seq<byte>)
}
