/** `Payload::from_vhx` (src/payload.rs:132-165): every hexadecimal digit of
    the file, wherever it stands, is one half of a byte; the bytes form
    chunks of `chunk_size / 32` words, each chunk written last word first.
    Reading the file is not modelled: its text is the input. */
module VhxRead {
  import opened Bytes
  import Hex
  import opened Words
  import opened Image

  datatype VhxError =
    | HexDecodeError(cause: Hex.FromHexError)
      // the decoded bytes do not fill a whole number of chunks
    | IncompleteLayout

  /** `.chars().filter(|ch| ch.is_ascii_hexdigit())`. */
  function HexDigitsOnly(text: string): (digits: string)
    ensures forall i :: 0 <= i < |digits| ==> Hex.IsHexDigit(digits[i])
  {
    if text == [] then []
    else
      var rest := HexDigitsOnly(text[1..]);
      if Hex.IsHexDigit(text[0]) then [text[0]] + rest else rest
  }

  /** The filter keeps every hex digit of the text and drops the rest. */
  lemma {:induction false} HexDigitsOnlyKeeps(text: string)
    ensures |HexDigitsOnly(text)| <= |text|
    ensures forall i :: 0 <= i < |text| && Hex.IsHexDigit(text[i]) ==> text[i] in HexDigitsOnly(text)
    ensures (forall i :: 0 <= i < |text| ==> Hex.IsHexDigit(text[i])) ==> HexDigitsOnly(text) == text
  {
    if text != [] {
      HexDigitsOnlyKeeps(text[1..]);
      assert forall i :: 1 <= i < |text| ==> text[i] == text[1..][i - 1];
    }
  }

  /** Filtering distributes over concatenation. */
  lemma {:induction false} HexDigitsOnlyAppend(a: string, b: string)
    ensures HexDigitsOnly(a + b) == HexDigitsOnly(a) + HexDigitsOnly(b)
    decreases |a|
  {
    if a == [] {
      assert a + b == b;
    } else {
      assert (a + b)[0] == a[0];
      assert (a + b)[1..] == a[1..] + b;
      HexDigitsOnlyAppend(a[1..], b);
    }
  }

  /** The number of bytes in one chunk, `(chunk_size / 32) * 4`. */
  function ChunkBytes(chunkSize: nat): (n: nat)
    requires chunkSize >= BITS_IN_WORD
    ensures n >= BYTES_IN_WORD && n % BYTES_IN_WORD == 0
  {
    4 * (chunkSize / BITS_IN_WORD)
  }

  /** What `from_vhx` returns. Rust divides by `chunk_size / 32`, so a chunk
      size below 32 would panic; callers only pass 64 or 128. */
  function VhxImage(text: string, startAddress: nat, chunkSize: nat): Result<Payload, VhxError>
    requires chunkSize >= BITS_IN_WORD
  {
    match Hex.Decode(HexDigitsOnly(text))
    case Err(e) => Err(HexDecodeError(e))
    case Ok(content) =>
      if |content| % ChunkBytes(chunkSize) != 0 then Err(IncompleteLayout)
      else Ok(Payload(startAddress, ReverseChunkWords(content, chunkSize / BITS_IN_WORD)))
  }

  /** Since every non-digit is dropped first, the only decoding error left
      is an odd number of digits. */
  lemma VhxDecodeOnlyOddLength(text: string, startAddress: nat, chunkSize: nat)
    requires chunkSize >= BITS_IN_WORD
    ensures VhxImage(text, startAddress, chunkSize) == Err(HexDecodeError(Hex.OddLength))
        <==> |HexDigitsOnly(text)| % 2 == 1
  {
  }

  /** `from_vhx` fails exactly when the digits are odd in number or the
      bytes do not fill whole chunks. */
  lemma VhxImageOutcome(text: string, startAddress: nat, chunkSize: nat)
    requires chunkSize >= BITS_IN_WORD
    ensures var digits := HexDigitsOnly(text);
      VhxImage(text, startAddress, chunkSize).Ok? <==> (|digits| % 2 == 0 && (|digits| / 2) % ChunkBytes(chunkSize) == 0)
  {
  }

  /** On success the start address is the caller's, the length is the
      decoded length, and every byte comes from the mirrored word of its
      chunk. */
  lemma VhxImageLayout(text: string, startAddress: nat, chunkSize: nat)
    requires chunkSize >= BITS_IN_WORD
    requires VhxImage(text, startAddress, chunkSize).Ok?
    ensures var r := VhxImage(text, startAddress, chunkSize).value;
      var content := Hex.Decode(HexDigitsOnly(text)).value;
      && r.startAddress == startAddress
      && |r.bytes| == |content|
      && forall k :: 0 <= k < |content| ==>
           && 0 <= MirroredIndex(k, chunkSize / BITS_IN_WORD) < |content|
           && r.bytes[k] == content[MirroredIndex(k, chunkSize / BITS_IN_WORD)]
  {
    ReverseChunkWordsMirrors(Hex.Decode(HexDigitsOnly(text)).value, chunkSize / BITS_IN_WORD);
  }

  /** `Payload::from_vhx` on the file's text. */
  method FromVhx(text: string, startAddress: nat, chunkSize: nat) returns (r: Result<Payload, VhxError>)
    requires chunkSize >= BITS_IN_WORD
    ensures r == VhxImage(text, startAddress, chunkSize)
  {
    var decoded := Hex.Decode(HexDigitsOnly(text));
    if decoded.Err? {
      return Err(HexDecodeError(decoded.error));
    }
    var content := decoded.value;
    var wordChunkSize := chunkSize / BITS_IN_WORD;
    if |content| % (wordChunkSize * BYTES_IN_WORD) != 0 {
      return Err(IncompleteLayout);
    }
    var bytes := ReverseChunks(content, wordChunkSize);
    r := Ok(Payload(startAddress, bytes));
  }

  /** The two loops of `from_vhx`: every chunk, and within it every word
      from last to first, is appended to `bytes`. */
  method ReverseChunks(content: seq<byte>, wordChunkSize: nat) returns (bytes: seq<byte>)
    requires wordChunkSize >= 1 && |content| % (wordChunkSize * BYTES_IN_WORD) == 0
    ensures bytes == ReverseChunkWords(content, wordChunkSize)
  {
    var size := wordChunkSize * BYTES_IN_WORD;
    assert size == 4 * wordChunkSize;
    bytes := [];
    var offset := 0;
    while offset < |content|
      invariant offset <= |content| && offset % size == 0
      invariant (|content| - offset) % size == 0
      invariant bytes == ReverseChunkWords(content[..offset], wordChunkSize)
    {
      NextMultiple(offset, |content|, size);
      var line := content[offset .. offset + size];
      ghost var before := bytes;
      var word: nat := wordChunkSize;
      while word > 0
        invariant word <= wordChunkSize
        invariant bytes == before + ReverseWords(line[4 * word ..])
      {
        word := word - 1;
        var rest := line[4 * word ..];
        assert rest[4..] == line[4 * (word + 1) ..];
        assert rest[..4] == line[4 * word .. 4 * word + 4];
        assert ReverseWords(rest) == ReverseWords(rest[4..]) + rest[..4];
        Reassociate(before, ReverseWords(rest[4..]), rest[..4]);
        bytes := bytes + line[4 * word .. 4 * word + 4];
      }
      assert line[4 * word ..] == line;
      ReverseChunkWordsExtend(content, offset, wordChunkSize);
      offset := offset + size;
    }
    assert content[..offset] == content;
  }
}
