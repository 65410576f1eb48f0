/** `Payload::write_vhx` (src/payload.rs:205-219): the words of the image
    in lower-case hex, `chunk_size / 32` words per line, each line written
    last word first; a trailing partial word or partial chunk is not
    written. The text is returned instead of written to a file. */
module VhxWrite {
  import opened Bytes
  import Hex
  import opened Words
  import opened Image

  /** The words of one chunk concatenated last word first
      (`chunk.iter().rev()`). */
  function ConcatReversed(ws: seq<string>): string
  {
    if ws == [] then "" else ConcatReversed(ws[1..]) + ws[0]
  }

  /** `words.chunks_exact(wordsPerChunk)`, every chunk as one line. */
  function ChunkLines(words: seq<string>, wordsPerChunk: nat): seq<string>
    requires wordsPerChunk >= 1
    decreases |words|
  {
    if |words| < wordsPerChunk then []
    else [ConcatReversed(words[..wordsPerChunk])] + ChunkLines(words[wordsPerChunk..], wordsPerChunk)
  }

  /** The lines `write_vhx` writes, without their line ends. */
  function VhxLines(p: Payload, chunkSize: nat): seq<string>
    requires chunkSize >= BITS_IN_WORD
  {
    ChunkLines(EncodedWords(p.bytes), chunkSize / BITS_IN_WORD)
  }

  /** The file: every line followed by a line end. */
  function VhxText(lines: seq<string>): string
  {
    if lines == [] then "" else lines[0] + "\n" + VhxText(lines[1..])
  }

  /** The lines without their line ends, run together. */
  function Concat(lines: seq<string>): string
  {
    if lines == [] then "" else lines[0] + Concat(lines[1..])
  }

  /** An independent reading of the lines on bytes: every whole chunk of
      `4 * wordsPerChunk` bytes, its word order reversed, in lower-case
      hex. */
  function ChunkDigits(bs: seq<byte>, wordsPerChunk: nat): seq<string>
    requires wordsPerChunk >= 1
    decreases |bs|
  {
    var size := 4 * wordsPerChunk;
    if |bs| < size then [] else [Hex.Encode(ReverseWords(bs[..size]))] + ChunkDigits(bs[size..], wordsPerChunk)
  }

  /** `Payload::write_vhx`, collecting the text it writes. */
  method WriteVhx(p: Payload, chunkSize: nat) returns (text: string)
    requires chunkSize >= BITS_IN_WORD
    ensures text == VhxText(VhxLines(p, chunkSize))
  {
    var words := EncodedWords(p.bytes);
    var wordsPerChunk := chunkSize / BITS_IN_WORD;
    text := "";
    var offset := 0;
    while offset + wordsPerChunk <= |words|
      invariant offset <= |words|
      invariant text + VhxText(ChunkLines(words[offset..], wordsPerChunk)) == VhxText(ChunkLines(words, wordsPerChunk))
      decreases |words| - offset
    {
      var chunk := words[offset .. offset + wordsPerChunk];
      assert chunk[wordsPerChunk..] == [];
      ghost var before := text;
      var i := wordsPerChunk;
      while i > 0
        invariant 0 <= i <= wordsPerChunk
        invariant text == before + ConcatReversed(chunk[i..])
      {
        i := i - 1;
        assert chunk[i..][1..] == chunk[i + 1..];
        Reassociate(before, ConcatReversed(chunk[i + 1..]), chunk[i]);
        text := text + chunk[i];
      }
      assert chunk[0..] == chunk;
      ChunkLinesStep(words, offset, wordsPerChunk);
      ghost var later := VhxText(ChunkLines(words[offset + wordsPerChunk ..], wordsPerChunk));
      Reassociate(text, "\n", later);
      Reassociate(before, ConcatReversed(chunk), "\n" + later);
      Reassociate(ConcatReversed(chunk), "\n", later);
      text := text + "\n";
      offset := offset + wordsPerChunk;
    }
  }

  /** One loop pass: the chunk at `offset` becomes the next line. */
  lemma ChunkLinesStep(words: seq<string>, offset: nat, wordsPerChunk: nat)
    requires wordsPerChunk >= 1 && offset + wordsPerChunk <= |words|
    ensures VhxText(ChunkLines(words[offset..], wordsPerChunk))
         == ConcatReversed(words[offset .. offset + wordsPerChunk]) + "\n"
            + VhxText(ChunkLines(words[offset + wordsPerChunk ..], wordsPerChunk))
  {
    var rest := words[offset..];
    assert rest[..wordsPerChunk] == words[offset .. offset + wordsPerChunk];
    assert rest[wordsPerChunk..] == words[offset + wordsPerChunk ..];
    var lines := ChunkLines(rest, wordsPerChunk);
    assert lines[1..] == ChunkLines(words[offset + wordsPerChunk ..], wordsPerChunk);
  }

  /** A chunk's words, encoded and concatenated last word first, are the
      encoding of the chunk with its word order reversed. */
  lemma {:induction false} ConcatReversedEncoded(chunk: seq<byte>)
    requires |chunk| % 4 == 0
    ensures ConcatReversed(EncodedWords(chunk)) == Hex.Encode(ReverseWords(chunk))
    decreases |chunk|
  {
    if chunk != [] {
      var ws := EncodedWords(chunk);
      assert ws[0] == Hex.Encode(chunk[..4]);
      assert ws[1..] == EncodedWords(chunk[4..]);
      ConcatReversedEncoded(chunk[4..]);
      Hex.EncodeAppend(ReverseWords(chunk[4..]), chunk[..4]);
    }
  }

  /** The lines `write_vhx` writes are the reference reading on bytes. */
  lemma {:induction false} ChunkLinesEncoded(bs: seq<byte>, wordsPerChunk: nat)
    requires wordsPerChunk >= 1
    ensures ChunkLines(EncodedWords(bs), wordsPerChunk) == ChunkDigits(bs, wordsPerChunk)
    decreases |bs|
  {
    var size := 4 * wordsPerChunk;
    if |bs| >= size {
      var chunk, rest := bs[..size], bs[size..];
      assert bs == chunk + rest;
      EncodedWordsAppend(chunk, rest);
      var words := EncodedWords(bs);
      assert words[..wordsPerChunk] == EncodedWords(chunk);
      assert words[wordsPerChunk..] == EncodedWords(rest);
      ConcatReversedEncoded(chunk);
      ChunkLinesEncoded(rest, wordsPerChunk);
    }
  }

  /** One line per whole chunk: a trailing partial chunk is not written. */
  lemma {:induction false} ChunkDigitsCount(bs: seq<byte>, wordsPerChunk: nat)
    requires wordsPerChunk >= 1
    ensures |ChunkDigits(bs, wordsPerChunk)| == |bs| / (4 * wordsPerChunk)
    decreases |bs|
  {
    var size := 4 * wordsPerChunk;
    if |bs| < size {
      DivUnique(|bs|, size, 0, |bs|);
    } else {
      ChunkDigitsCount(bs[size..], wordsPerChunk);
      DivMinusOne(|bs|, size);
    }
  }

  /** Every line is `8 * wordsPerChunk` lower-case hex digits. */
  lemma {:induction false} ChunkDigitsLines(bs: seq<byte>, wordsPerChunk: nat)
    requires wordsPerChunk >= 1
    ensures forall k :: 0 <= k < |ChunkDigits(bs, wordsPerChunk)| ==>
      && |ChunkDigits(bs, wordsPerChunk)[k]| == 8 * wordsPerChunk
      && forall j :: 0 <= j < |ChunkDigits(bs, wordsPerChunk)[k]| ==> Hex.IsLowerHexDigit(ChunkDigits(bs, wordsPerChunk)[k][j])
    decreases |bs|
  {
    var size := 4 * wordsPerChunk;
    if |bs| >= size {
      var lines := ChunkDigits(bs, wordsPerChunk);
      ChunkDigitsLines(bs[size..], wordsPerChunk);
      Hex.EncodeLowerDigits(ReverseWords(bs[..size]));
      assert lines[1..] == ChunkDigits(bs[size..], wordsPerChunk);
      forall k | 1 <= k < |lines|
        ensures lines[k] == ChunkDigits(bs[size..], wordsPerChunk)[k - 1]
      {
      }
    }
  }

  /** Run together, the lines encode the image with every whole chunk's
      word order reversed. */
  lemma {:induction false} ChunkDigitsConcat(bs: seq<byte>, wordsPerChunk: nat)
    requires wordsPerChunk >= 1
    ensures Concat(ChunkDigits(bs, wordsPerChunk)) == Hex.Encode(ReverseChunkWords(bs, wordsPerChunk))
    decreases |bs|
  {
    var size := 4 * wordsPerChunk;
    if |bs| >= size {
      var lines := ChunkDigits(bs, wordsPerChunk);
      assert lines[1..] == ChunkDigits(bs[size..], wordsPerChunk);
      ChunkDigitsConcat(bs[size..], wordsPerChunk);
      Hex.EncodeAppend(ReverseWords(bs[..size]), ReverseChunkWords(bs[size..], wordsPerChunk));
    }
  }

  /** What `write_vhx` writes, in terms of the image: one line per whole
      chunk, `8 * (chunk_size / 32)` lower-case digits each, and the digits
      of all lines together encode the image with every chunk's word order
      reversed. */
  lemma VhxLinesShape(p: Payload, chunkSize: nat)
    requires chunkSize >= BITS_IN_WORD
    ensures var lines := VhxLines(p, chunkSize);
      && |lines| == |p.bytes| / (4 * (chunkSize / BITS_IN_WORD))
      && (forall k :: 0 <= k < |lines| ==> |lines[k]| == 8 * (chunkSize / BITS_IN_WORD))
      && Concat(lines) == Hex.Encode(ReverseChunkWords(p.bytes, chunkSize / BITS_IN_WORD))
  {
    var w := chunkSize / BITS_IN_WORD;
    ChunkLinesEncoded(p.bytes, w);
    ChunkDigitsCount(p.bytes, w);
    ChunkDigitsLines(p.bytes, w);
    ChunkDigitsConcat(p.bytes, w);
  }
}
