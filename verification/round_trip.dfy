/** What the writers promise the readers: an image written by `write_vhx`
    or `write_hex` reads back as the same image, and what is lost when it
    does not. */
module RoundTrip {
  import opened Bytes
  import Hex
  import opened Words
  import opened Image
  import opened VhxRead
  import opened VhxWrite

  /** Dropping the line ends of lines made of hex digits leaves the lines
      run together. */
  lemma {:induction false} TextDigits(lines: seq<string>)
    requires forall k, j :: 0 <= k < |lines| && 0 <= j < |lines[k]| ==> Hex.IsHexDigit(lines[k][j])
    ensures HexDigitsOnly(VhxText(lines)) == Concat(lines)
  {
    if lines != [] {
      var line, rest := lines[0], lines[1..];
      forall k, j | 0 <= k < |rest| && 0 <= j < |rest[k]| ensures Hex.IsHexDigit(rest[k][j]) {
        assert rest[k] == lines[k + 1];
      }
      TextDigits(rest);
      assert HexDigitsOnly(line + "\n") == line by {
        HexDigitsOnlyAppend(line, "\n");
        assert HexDigitsOnly("\n") == [] by {
          assert "\n"[1..] == [];
        }
        assert forall j :: 0 <= j < |line| ==> Hex.IsHexDigit(line[j]);
        HexDigitsOnlyKeeps(line);
        assert line + [] == line;
      }
      HexDigitsOnlyAppend(line + "\n", VhxText(rest));
    }
  }

  /** A VHX file written for a whole number of chunks reads back as the
      image it was written from. */
  lemma VhxRoundTrip(p: Payload, chunkSize: nat)
    requires chunkSize >= BITS_IN_WORD && |p.bytes| % ChunkBytes(chunkSize) == 0
    ensures VhxImage(VhxText(VhxLines(p, chunkSize)), p.startAddress, chunkSize) == Ok(p)
  {
    var w := chunkSize / BITS_IN_WORD;
    var size := 4 * w;
    var lines := VhxLines(p, chunkSize);
    VhxLinesShape(p, chunkSize);
    ChunkLinesEncoded(p.bytes, w);
    ChunkDigitsLines(p.bytes, w);
    TextDigits(lines);
    var rearranged := ReverseChunkWords(p.bytes, w);
    Hex.DecodeEncode(rearranged);
    ReverseChunkWordsLength(p.bytes, w);
    ReverseChunkWordsInvolution(p.bytes, w);
  }

  /** Written lines depend only on the whole chunks. */
  lemma {:induction false} ChunkDigitsPrefix(bs: seq<byte>, wordsPerChunk: nat)
    requires wordsPerChunk >= 1
    ensures |bs| % (4 * wordsPerChunk) <= |bs|
    ensures ChunkDigits(bs, wordsPerChunk) == ChunkDigits(bs[..|bs| - |bs| % (4 * wordsPerChunk)], wordsPerChunk)
    decreases |bs|
  {
    var size := 4 * wordsPerChunk;
    RoundDown(|bs|, size);
    if |bs| < size {
      DivUnique(|bs|, size, 0, |bs|);
      assert bs[..0] == [];
    } else {
      var rest := bs[size..];
      ChunkDigitsPrefix(rest, wordsPerChunk);
      var m := |bs| - |bs| % size;
      var mr := |rest| - |rest| % size;
      WholeChunksStep(|bs|, size);
      assert bs[size..m] == rest[..mr];
      ChunkDigitsUnfold(bs, wordsPerChunk, m);
      calc {
        ChunkDigits(bs, wordsPerChunk);
        [Hex.Encode(ReverseWords(bs[..size]))] + ChunkDigits(rest, wordsPerChunk);
        [Hex.Encode(ReverseWords(bs[..size]))] + ChunkDigits(bs[size..m], wordsPerChunk);
        ChunkDigits(bs[..m], wordsPerChunk);
      }
    }
  }

  /** The whole chunks of a text one chunk longer are one chunk more. */
  lemma WholeChunksStep(n: int, size: int)
    requires size > 0 && n >= size
    ensures n - n % size == (n - size) - (n - size) % size + size
  {
    DivMinusOne(n, size);
  }

  /** The first chunk of a prefix at least one chunk long is written
      first. */
  lemma ChunkDigitsUnfold(bs: seq<byte>, wordsPerChunk: nat, m: nat)
    requires wordsPerChunk >= 1 && 4 * wordsPerChunk <= m <= |bs|
    ensures ChunkDigits(bs[..m], wordsPerChunk)
         == [Hex.Encode(ReverseWords(bs[..4 * wordsPerChunk]))] + ChunkDigits(bs[4 * wordsPerChunk..m], wordsPerChunk)
  {
    var size := 4 * wordsPerChunk;
    assert bs[..m][..size] == bs[..size];
    assert bs[..m][size..] == bs[size..m];
  }

  /** The lines written for an image are those written for its whole
      chunks. */
  lemma VhxLinesWholeChunks(p: Payload, chunkSize: nat)
    requires chunkSize >= BITS_IN_WORD
    ensures |p.bytes| % ChunkBytes(chunkSize) <= |p.bytes|
    ensures VhxLines(p, chunkSize)
         == VhxLines(Payload(p.startAddress, p.bytes[..|p.bytes| - |p.bytes| % ChunkBytes(chunkSize)]), chunkSize)
  {
    var w := chunkSize / BITS_IN_WORD;
    ChunkDigitsPrefix(p.bytes, w);
    var whole := p.bytes[..|p.bytes| - |p.bytes| % (4 * w)];
    ChunkLinesEncoded(p.bytes, w);
    ChunkLinesEncoded(whole, w);
  }

  /** Writing a VHX file and reading it back keeps exactly the whole
      chunks: a trailing partial chunk is lost. */
  lemma VhxRoundTripTruncates(p: Payload, chunkSize: nat)
    requires chunkSize >= BITS_IN_WORD
    ensures |p.bytes| % ChunkBytes(chunkSize) <= |p.bytes|
    ensures VhxImage(VhxText(VhxLines(p, chunkSize)), p.startAddress, chunkSize)
         == Ok(Payload(p.startAddress, p.bytes[..|p.bytes| - |p.bytes| % ChunkBytes(chunkSize)]))
  {
    var size := ChunkBytes(chunkSize);
    RoundDown(|p.bytes|, size);
    var whole := Payload(p.startAddress, p.bytes[..|p.bytes| - |p.bytes| % size]);
    VhxLinesWholeChunks(p, chunkSize);
    RemainderDropped(|p.bytes|, size);
    VhxRoundTrip(whole, chunkSize);
  }
}
