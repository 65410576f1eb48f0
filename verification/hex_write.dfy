/** `Payload::write_hex` (src/payload.rs:167-203): one extended linear
    address record, one data record per 16-byte group, and the end-of-file
    record. The lines are returned instead of written to a file. */
module HexWrite {
  import opened Bytes
  import Hex
  import opened Checksum
  import opened Words
  import opened Image

  /** `PREFERRED_WORDS_ON_LINE * BYTES_IN_WORD`. */
  const STEP_SIZE: nat := 16
  const END_OF_FILE_LINE: string := ":00000001FF"

  /** A record written as a line: the start code and the upper-case digits. */
  function RecordLine(record: seq<byte>): string
  {
    ":" + Hex.EncodeUpper(record)
  }

  /** A record line starts with `:` and its remaining digits decode back to
      the record. */
  lemma RecordLineDecodes(record: seq<byte>)
    ensures var line := RecordLine(record);
      |line| == 1 + 2 * |record| && line[0] == ':' && Hex.Decode(line[1..]) == Ok(record)
  {
    Hex.DecodeEncodeUpper(record);
    assert RecordLine(record)[1..] == Hex.EncodeUpper(record);
  }

  /** The first record without its checksum: type 04 with bytes 0-1 of
      `start_address as u32`, the upper half of the 32-bit address. */
  function ExtendedAddressRecord(startAddress: nat): (record: seq<byte>)
    ensures |record| == 6 && record[..4] == [2, 0, 0, 4]
    ensures (record[4] as int) * 256 + record[5] == (startAddress % TWO_32) / TWO_16
  {
    BigEndian32Halves(startAddress);
    var address := ToBigEndian32(startAddress);
    [2, 0, 0, 4, address[0], address[1]]
  }

  /** The first line: the record and its checksum, upper-case. */
  function ExtendedAddressLine(startAddress: nat): string
  {
    var record := ExtendedAddressRecord(startAddress);
    ":" + Hex.EncodeUpper(record) + Hex.EncodeUpper([HexChecksum(record)])
  }

  /** Group `offset / 16` of `chunks(16)`: sixteen bytes, or fewer at the
      end of the image. */
  function Group(bytes: seq<byte>, offset: nat): (group: seq<byte>)
    requires offset < |bytes|
    ensures 1 <= |group| <= STEP_SIZE && offset + |group| <= |bytes|
    ensures group == bytes[offset .. offset + |group|]
    ensures |group| == STEP_SIZE || offset + |group| == |bytes|
  {
    if offset + STEP_SIZE <= |bytes| then bytes[offset .. offset + STEP_SIZE] else bytes[offset..]
  }

  /** The whole words of a group in the chosen byte order; a trailing
      partial word (`chunks_exact(4)`) is not written. */
  function WordPayload(group: seq<byte>, littleEndian: bool): (payload: seq<byte>)
    ensures |payload| == |group| / 4 * 4
  {
    if littleEndian then ReverseEachWord(group) else group[..|group| / 4 * 4]
  }

  /** The data record for the group at `offset`, its checksum included. The
      count byte is the GROUP length even when the payload is shorter. */
  function DataRecord(startAddress: nat, offset: nat, group: seq<byte>, littleEndian: bool): seq<byte>
    requires |group| <= STEP_SIZE
  {
    var subAddress := ToBigEndian32(startAddress + offset);
    var line := [|group| as byte, subAddress[2], subAddress[3], 0] + WordPayload(group, littleEndian);
    line + [HexChecksum(line)]
  }

  /** The data line for the group at `offset`. */
  function DataLine(p: Payload, littleEndian: bool, offset: nat): string
    requires offset < |p.bytes|
  {
    RecordLine(DataRecord(p.startAddress, offset, Group(p.bytes, offset), littleEndian))
  }

  /** The number of groups `chunks(16)` yields. */
  function GroupCount(n: nat): (count: nat)
    ensures count * STEP_SIZE >= n && (count == 0 || (count - 1) * STEP_SIZE < n)
  {
    (n + STEP_SIZE - 1) / STEP_SIZE
  }

  /** Group `k` exists exactly when it starts inside the image. */
  lemma GroupExists(k: nat, n: nat)
    ensures k * STEP_SIZE < n <==> k < GroupCount(n)
  {
    var c := GroupCount(n);
    if k < c {
      assert k * STEP_SIZE <= (c - 1) * STEP_SIZE;
    } else {
      assert k * STEP_SIZE >= c * STEP_SIZE;
    }
  }

  /** One data line per group of `chunks(16)`, in order. */
  function DataLines(p: Payload, littleEndian: bool): (lines: seq<string>)
    ensures |lines| == GroupCount(|p.bytes|)
    ensures forall k :: 0 <= k < |lines| ==> k * STEP_SIZE < |p.bytes| && lines[k] == DataLine(p, littleEndian, k * STEP_SIZE)
  {
    seq(GroupCount(|p.bytes|), k requires 0 <= k < GroupCount(|p.bytes|) => DataLine(p, littleEndian, k * STEP_SIZE))
  }

  /** Everything `write_hex` writes, one string per line. */
  function HexLines(p: Payload, littleEndian: bool): seq<string>
  {
    [ExtendedAddressLine(p.startAddress)] + DataLines(p, littleEndian) + [END_OF_FILE_LINE]
  }

  /** `Payload::write_hex`, collecting the lines it writes. */
  method WriteHex(p: Payload, littleEndian: bool) returns (lines: seq<string>)
    ensures lines == HexLines(p, littleEndian)
  {
    var first := WriteExtendedAddressLine(p.startAddress);
    lines := [first];
    ghost var all := DataLines(p, littleEndian);
    var offset := 0;
    var groups := GroupCount(|p.bytes|);
    while offset < groups
      invariant offset <= groups && lines == [ExtendedAddressLine(p.startAddress)] + all[..offset]
    {
      GroupExists(offset, |p.bytes|);
      var text := WriteDataLine(p, littleEndian, offset);
      PrefixExtend([ExtendedAddressLine(p.startAddress)], all, offset);
      lines := lines + [text];
      offset := offset + 1;
    }
    PrefixWhole(all);
    lines := lines + [END_OF_FILE_LINE];
  }

  /** The first line `write_hex` writes. */
  method WriteExtendedAddressLine(startAddress: nat) returns (text: string)
    ensures text == ExtendedAddressLine(startAddress)
  {
    var address := ToBigEndian32(startAddress);
    var extendedSegment: seq<byte> := [0x02, 0x00, 0x00, 0x04, address[0], address[1]];
    var extendedChecksum := [HexChecksum(extendedSegment)];
    text := ":" + Hex.EncodeUpper(extendedSegment) + Hex.EncodeUpper(extendedChecksum);
  }

  /** One pass of the group loop of `write_hex`: the line for group
      `offset` of `chunks(16)`. */
  method WriteDataLine(p: Payload, littleEndian: bool, offset: nat) returns (text: string)
    requires offset * STEP_SIZE < |p.bytes|
    ensures text == DataLine(p, littleEndian, offset * STEP_SIZE)
  {
    var position := offset * STEP_SIZE;
    var wordGroup := Group(p.bytes, position);
    var line := WriteDataRecord(p.startAddress, position, wordGroup, littleEndian);
    text := ":" + Hex.EncodeUpper(line);
  }

  /** The body of the per-group loop of `write_hex`: the header, the whole
      words (reversed in little-endian order), and the checksum. */
  method WriteDataRecord(startAddress: nat, position: nat, wordGroup: seq<byte>, littleEndian: bool)
    returns (line: seq<byte>)
    requires |wordGroup| <= STEP_SIZE
    ensures line == DataRecord(startAddress, position, wordGroup, littleEndian)
  {
    var subAddress := ToBigEndian32(startAddress + position);
    var header: seq<byte> := [|wordGroup| as byte, subAddress[2], subAddress[3], 0x00];
    line := header;
    var byteGroup := 0;
    while byteGroup + BYTES_IN_WORD <= |wordGroup|
      invariant byteGroup <= |wordGroup| && byteGroup % 4 == 0
      invariant line == header + WordPayload(wordGroup[..byteGroup], littleEndian)
    {
      var word := wordGroup[byteGroup .. byteGroup + BYTES_IN_WORD];
      WordPayloadExtend(wordGroup, byteGroup, littleEndian);
      if littleEndian {
        line := line + [word[3], word[2], word[1], word[0]];
      } else {
        line := line + word;
      }
      byteGroup := byteGroup + BYTES_IN_WORD;
    }
    WordPayloadWhole(wordGroup, byteGroup, littleEndian);
    line := line + [HexChecksum(line)];
  }

  /** One more whole word extends the payload by that word, reversed in
      little-endian order. */
  lemma WordPayloadExtend(group: seq<byte>, n: nat, littleEndian: bool)
    requires n % 4 == 0 && n + 4 <= |group|
    ensures var word := group[n .. n + 4];
      WordPayload(group[..n + 4], littleEndian)
        == WordPayload(group[..n], littleEndian) + (if littleEndian then [word[3], word[2], word[1], word[0]] else word)
  {
    var word := group[n .. n + 4];
    assert group[..n + 4] == group[..n] + word;
    if littleEndian {
      ReverseEachWordAppend(group[..n], word);
      assert word[4..] == [];
    }
  }

  /** Once every whole word is in, the payload is the group's payload. */
  lemma WordPayloadWhole(group: seq<byte>, n: nat, littleEndian: bool)
    requires n % 4 == 0 && n <= |group| < n + 4
    ensures WordPayload(group[..n], littleEndian) == WordPayload(group, littleEndian)
  {
    if littleEndian {
      assert group == group[..n] + group[n..];
      ReverseEachWordAppend(group[..n], group[n..]);
    }
  }

  /** The first line is the type-04 record for the upper half of
      `start_address as u32`, and its bytes sum to zero modulo 256. */
  lemma ExtendedAddressLineRecord(startAddress: nat)
    ensures var record := ExtendedAddressRecord(startAddress) + [HexChecksum(ExtendedAddressRecord(startAddress))];
      && ExtendedAddressLine(startAddress) == RecordLine(record)
      && Sum(record) % 256 == 0
  {
    var record := ExtendedAddressRecord(startAddress);
    Hex.EncodeUpperAppend(record, [HexChecksum(record)]);
    ChecksumAppended(record);
  }

  /** The data record for the group at `offset`: count = group length, the
      low 16 bits of `start + offset` as its address, type 00, the group's
      whole words as payload, and the checksum of all that last. */
  lemma DataRecordLayout(startAddress: nat, offset: nat, group: seq<byte>, littleEndian: bool)
    requires |group| <= STEP_SIZE
    ensures var record := DataRecord(startAddress, offset, group, littleEndian);
      && |record| == 5 + |group| / 4 * 4
      && record[0] as int == |group|
      && (record[1] as int) * 256 + record[2] == (startAddress + offset) % TWO_16
      && record[3] == 0
      && record[4 .. |record| - 1] == WordPayload(group, littleEndian)
      && record[|record| - 1] == HexChecksum(record[..|record| - 1])
  {
    BigEndian32Halves(startAddress + offset);
    var subAddress := ToBigEndian32(startAddress + offset);
    var line := [|group| as byte, subAddress[2], subAddress[3], 0] + WordPayload(group, littleEndian);
    assert (line + [HexChecksum(line)])[..|line|] == line;
  }

  /** The data line for the group at `offset` carries that record, and its
      bytes sum to zero modulo 256. */
  lemma DataRecordFields(startAddress: nat, offset: nat, group: seq<byte>, littleEndian: bool)
    requires |group| <= STEP_SIZE
    ensures var record := DataRecord(startAddress, offset, group, littleEndian);
      && |record| == 5 + |group| / 4 * 4
      && record[0] as int == |group|
      && (record[1] as int) * 256 + record[2] == (startAddress + offset) % TWO_16
      && record[3] == 0
      && record[4 .. |record| - 1] == WordPayload(group, littleEndian)
      && Sum(record) % 256 == 0
  {
    DataRecordLayout(startAddress, offset, group, littleEndian);
    var subAddress := ToBigEndian32(startAddress + offset);
    var line := [|group| as byte, subAddress[2], subAddress[3], 0] + WordPayload(group, littleEndian);
    ChecksumAppended(line);
  }

  /** The count/payload mismatch of a group with a partial word: its count
      byte says more bytes than the record carries before its checksum. */
  lemma PartialWordCountMismatch(startAddress: nat, offset: nat, group: seq<byte>, littleEndian: bool)
    requires |group| <= STEP_SIZE && |group| % 4 != 0
    ensures var record := DataRecord(startAddress, offset, group, littleEndian);
      record[0] as int > |record| - 5
  {
    DataRecordFields(startAddress, offset, group, littleEndian);
  }

  /** The shape of the whole output: the extended address line, one data
      line per started 16-byte group, and `:00000001FF` last. */
  lemma HexLinesShape(p: Payload, littleEndian: bool)
    ensures var lines := HexLines(p, littleEndian);
      && |lines| == 2 + (|p.bytes| + 15) / 16
      && lines[0] == ExtendedAddressLine(p.startAddress)
      && lines[|lines| - 1] == END_OF_FILE_LINE
  {
  }

  /** The end-of-file line is record type 01 with no data, and its bytes sum
      to zero modulo 256. */
  lemma EndOfFileLineRecord()
    ensures END_OF_FILE_LINE == RecordLine([0, 0, 0, 1, 0xFF])
    ensures Sum([0, 0, 0, 1, 0xFF]) % 256 == 0
  {
    var record: seq<byte> := [0, 0, 0, 1, 0xFF];
    var tail: seq<byte> := [1, 0xFF];
    assert tail[1..][1..] == [];
    assert Hex.EncodeUpper(tail) == "01FF";
    assert record[1..][1..][1..] == tail;
    assert Hex.EncodeUpper(record) == "00000001FF";
    assert Sum(record) == 256 by {
      assert Sum(record[..1]) == 0 by { assert record[..1][..0] == []; }
      assert Sum(record[..2]) == 0 by { assert record[..2][..1] == record[..1]; }
      assert Sum(record[..3]) == 0 by { assert record[..3][..2] == record[..2]; }
      assert Sum(record[..4]) == 1 by { assert record[..4][..3] == record[..3]; }
    }
  }
}
