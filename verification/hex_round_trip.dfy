/** What `write_hex` promises `from_hex`: an image written with one
    endianness and read back with the same one comes back unchanged, as long
    as it fits below one 64 KiB boundary of the single extended linear
    address record `write_hex` writes. */
module HexRoundTrip {
  import opened Bytes
  import Hex
  import opened Checksum
  import opened Words
  import opened Image
  import opened MemoryMap
  import opened HexRead
  import opened HexWrite

  /** The images the round trip holds for: non-empty, whole words, a
      32-bit start address, and no data record crossing a 64 KiB boundary
      (the sub-addresses of `write_hex` are 16 bits and there is one
      extended linear address record). */
  predicate FitsOneSegment(p: Payload)
  {
    && |p.bytes| > 0
    && |p.bytes| % 4 == 0
    && p.startAddress < TWO_32
    && p.startAddress % TWO_16 + |p.bytes| <= TWO_16
  }

  /** The bytes in the order `write_hex` puts them in its data records. */
  function Written(bytes: seq<byte>, littleEndian: bool): seq<byte>
  {
    if littleEndian then ReverseEachWord(bytes) else bytes
  }

  /** The pairs the scan has collected once the first `m` written bytes are
      read: byte `j` at address `start + j`. */
  function Placed(start: nat, written: seq<byte>, m: nat): (es: seq<Entry>)
    requires m <= |written|
    ensures |es| == m
  {
    seq(m, j requires 0 <= j < m => (start + j, written[j]))
  }

  /** How many bytes the data records before record `k` carry. */
  function Consumed(k: nat, n: nat): nat
  {
    if k * STEP_SIZE <= n then k * STEP_SIZE else n
  }

  /** A word-aligned group of the image carries the matching slice of the
      written bytes. */
  lemma WordPayloadWritten(bytes: seq<byte>, o: nat, e: nat, littleEndian: bool)
    requires o % 4 == 0 && e % 4 == 0 && o <= e <= |bytes| && |bytes| % 4 == 0
    ensures |Written(bytes, littleEndian)| == |bytes|
    ensures WordPayload(bytes[o..e], littleEndian) == Written(bytes, littleEndian)[o..e]
  {
    if littleEndian {
      ReverseEachWordSlice(bytes, o, e);
    } else {
      assert (e - o) / 4 * 4 == e - o;
      assert bytes[o..e][..(e - o) / 4 * 4] == bytes[o..e];
    }
  }

  /** Swapping the bytes of every word commutes with taking a word-aligned
      slice. */
  lemma ReverseEachWordSlice(bytes: seq<byte>, o: nat, e: nat)
    requires o % 4 == 0 && e % 4 == 0 && o <= e <= |bytes| && |bytes| % 4 == 0
    ensures |ReverseEachWord(bytes)| == |bytes|
    ensures ReverseEachWord(bytes[o..e]) == ReverseEachWord(bytes)[o..e]
  {
    SplitThree(bytes, o, e);
    DivUnique(e - o, 4, e / 4 - o / 4, 0);
    ReverseEachWordMiddle(bytes[..o], bytes[o..e], bytes[e..]);
  }

  /** The words of `b` between whole words `a` and the rest `c`. */
  lemma ReverseEachWordMiddle(a: seq<byte>, b: seq<byte>, c: seq<byte>)
    requires |a| % 4 == 0 && |b| % 4 == 0
    ensures ReverseEachWord(a + (b + c))[|a| .. |a| + |b|] == ReverseEachWord(b)
  {
    ReverseEachWordAppend(a, b + c);
    ReverseEachWordAppend(b, c);
    MiddleOfThree(ReverseEachWord(a), ReverseEachWord(b), ReverseEachWord(c));
  }

  lemma MiddleOfThree<T>(x: seq<T>, y: seq<T>, z: seq<T>)
    ensures (x + (y + z))[|x| .. |x| + |y|] == y
  {
  }

  lemma SplitThree<T>(s: seq<T>, o: nat, e: nat)
    requires o <= e <= |s|
    ensures s == s[..o] + (s[o..e] + s[e..])
    ensures |s[..o]| == o && |s[o..e]| == e - o
  {
    assert s[o..] == s[o..e] + s[e..];
  }

  /** `bytes` lay out `rec` the way a line's digits carry a record: the
      count, the big-endian 16-bit address, the type, and the payload
      right before a checksum that holds. */
  predicate Carries(bytes: seq<byte>, rec: Record)
  {
    && |bytes| >= 4 && rec.count < |bytes|
    && bytes[|bytes| - 1] == HexChecksum(bytes[..|bytes| - 1])
    && bytes[0] == rec.count
    && (bytes[1] as nat) * 256 + bytes[2] == rec.baseAddress
    && bytes[3] == rec.recordType
    && bytes[|bytes| - 1 - rec.count .. |bytes| - 1] == rec.payload
  }

  /** The line of bytes that carry a record parses to that record. */
  lemma RecordLineParses(record: seq<byte>, rec: Record, lineNumber: nat)
    requires Carries(record, rec)
    ensures ParseLine(RecordLine(record), lineNumber) == Ok(rec)
  {
    RecordLineDecodes(record);
    CarriedRecordParses(record, rec, lineNumber);
    ParseLineDigits(RecordLine(record), record, lineNumber);
  }

  /** Bytes that carry a record parse to that record. */
  lemma CarriedRecordParses(record: seq<byte>, rec: Record, lineNumber: nat)
    requires Carries(record, rec)
    ensures ParseRecord(record, lineNumber) == Ok(rec)
  {
    ParseRecordFields(record, lineNumber);
  }

  /** `write_hex` writes the extended address line first. */
  lemma HexFirstLine(p: Payload, littleEndian: bool)
    ensures var lines := HexLines(p, littleEndian);
      |lines| >= 2 && lines[0] == ExtendedAddressLine(p.startAddress)
  {
  }

  /** Line `1 + k` of `write_hex` is the data line of group `k`. */
  lemma HexDataLine(p: Payload, littleEndian: bool, k: nat)
    requires k < GroupCount(|p.bytes|)
    ensures k * STEP_SIZE < |p.bytes|
    ensures var lines := HexLines(p, littleEndian);
      1 + k < |lines| && lines[1 + k] == DataLine(p, littleEndian, k * STEP_SIZE)
  {
  }

  /** `write_hex` writes the end-of-file line last, after one data line
      per group. */
  lemma HexLastLine(p: Payload, littleEndian: bool)
    ensures var lines := HexLines(p, littleEndian);
      |lines| == GroupCount(|p.bytes|) + 2 && lines[1 + GroupCount(|p.bytes|)] == END_OF_FILE_LINE
  {
  }

  /** The first line loads the extended linear address register with the
      upper half of the start address. */
  lemma ExtendedAddressStep(start: nat)
    requires start < TWO_32
    ensures Step(ExtendedAddressLine(start), 0, INITIAL) == Running(ScanState([], 0, start / TWO_16))
  {
    var header := ExtendedAddressRecord(start);
    var record := header + [HexChecksum(header)];
    Hex.EncodeUpperAppend(header, [HexChecksum(header)]);
    assert ExtendedAddressLine(start) == RecordLine(record);
    assert record[..6] == header;
    DivUnique(start, TWO_32, 0, start);
    RecordLineDecodes(record);
    RecordLineParses(record, Record(2, 0, EXTENDED_LINEAR_ADDRESS, record[4..6]), 0);
  }

  /** The end-of-file line stops the scan and keeps its state. */
  lemma EndOfFileLineStep(lineNumber: nat, st: ScanState)
    ensures Step(END_OF_FILE_LINE, lineNumber, st) == Stopped(st)
  {
    var record: seq<byte> := [0, 0, 0, 1, 0xFF];
    EndOfFileLineRecord();
    ChecksumValid(record);
    assert record[..4] == [0, 0, 0, 1];
    RecordLineDecodes(record);
    RecordLineParses(record, Record(0, 0, END_OF_FILE, []), lineNumber);
  }

  /** The groups of a word-aligned image start and end on word
      boundaries. */
  lemma GroupAligned(n: nat, k: nat)
    requires n % 4 == 0 && k * STEP_SIZE < n
    ensures var g := if k * STEP_SIZE + STEP_SIZE <= n then STEP_SIZE else n - k * STEP_SIZE;
      (k * STEP_SIZE) % 4 == 0 && g % 4 == 0 && (k * STEP_SIZE + g) % 4 == 0
  {
    var o := k * STEP_SIZE;
    DivUnique(o, 4, 4 * k, 0);
    if o + STEP_SIZE <= n {
      DivUnique(o + STEP_SIZE, 4, 4 * k + 4, 0);
    } else {
      DivUnique(n - o, 4, n / 4 - 4 * k, 0);
    }
  }

  /** Every group of a word-aligned image is whole words. */
  lemma GroupWords(bytes: seq<byte>, k: nat)
    requires |bytes| % 4 == 0 && k * STEP_SIZE < |bytes|
    ensures |Group(bytes, k * STEP_SIZE)| % 4 == 0
  {
    GroupAligned(|bytes|, k);
  }

  /** The record `write_hex` writes for the group at `offset`. */
  function GroupRecord(p: Payload, littleEndian: bool, offset: nat): Record
    requires offset < |p.bytes|
  {
    var group := Group(p.bytes, offset);
    Record(|group| as byte, (p.startAddress + offset) % TWO_16, DATA, WordPayload(group, littleEndian))
  }

  /** `rec` is a data record carrying the written bytes from `o` on, at
      the addresses right after the `o` bytes placed so far, all below the
      next 64 KiB boundary. */
  predicate Follows(rec: Record, start: nat, written: seq<byte>, o: nat)
  {
    && rec.recordType == DATA
    && o + rec.count <= |written|
    && rec.baseAddress + rec.count <= TWO_16
    && rec.payload == written[o .. o + rec.count]
    && (start / TWO_16) * TWO_16 + rec.baseAddress == start + o
  }

  /** The scan's state once the data records before record `k` are read:
      their bytes placed at consecutive addresses from the start address,
      the extended linear address register holding its upper half. */
  function PlacedState(p: Payload, littleEndian: bool, k: nat): ScanState
    requires FitsOneSegment(p)
  {
    ScanState(Placed(p.startAddress, Written(p.bytes, littleEndian), Consumed(k, |p.bytes|)), 0, p.startAddress / TWO_16)
  }

  /** The group at `16 * k` is whole words, and its record follows the
      bytes of the groups before it. */
  lemma DataGroup(p: Payload, littleEndian: bool, k: nat)
    requires FitsOneSegment(p) && k * STEP_SIZE < |p.bytes|
    ensures var o := k * STEP_SIZE;
      && |Group(p.bytes, o)| % 4 == 0
      && Consumed(k, |p.bytes|) == o
      && Consumed(k + 1, |p.bytes|) == o + GroupRecord(p, littleEndian, o).count
      && Follows(GroupRecord(p, littleEndian, o), p.startAddress, Written(p.bytes, littleEndian), o)
  {
    GroupAligned(|p.bytes|, k);
    GroupFollows(p, littleEndian, k * STEP_SIZE);
  }

  /** The record of a word-aligned group follows the bytes before it. */
  lemma GroupFollows(p: Payload, littleEndian: bool, o: nat)
    requires FitsOneSegment(p) && o < |p.bytes|
    requires o % 4 == 0 && (o + |Group(p.bytes, o)|) % 4 == 0
    ensures Follows(GroupRecord(p, littleEndian, o), p.startAddress, Written(p.bytes, littleEndian), o)
  {
    var g := |Group(p.bytes, o)|;
    WordPayloadWritten(p.bytes, o, o + g, littleEndian);
    SegmentOffset(p.startAddress, o);
  }

  /** Below the next 64 KiB boundary, an offset from the start address
      only changes the low 16 bits. */
  lemma SegmentOffset(start: nat, o: nat)
    requires start % TWO_16 + o < TWO_16
    ensures (start + o) % TWO_16 == start % TWO_16 + o
    ensures (start / TWO_16) * TWO_16 + (start + o) % TWO_16 == start + o
  {
    DivUnique(start + o, TWO_16, start / TWO_16, start % TWO_16 + o);
  }

  /** The data line at `offset` parses to the record of its group. */
  lemma DataLineRecord(p: Payload, littleEndian: bool, offset: nat, lineNumber: nat)
    requires offset < |p.bytes| && |Group(p.bytes, offset)| % 4 == 0
    ensures ParseLine(DataLine(p, littleEndian, offset), lineNumber) == Ok(GroupRecord(p, littleEndian, offset))
  {
    DataRecordCarries(p, littleEndian, offset);
    RecordLineParses(DataRecord(p.startAddress, offset, Group(p.bytes, offset), littleEndian), GroupRecord(p, littleEndian, offset), lineNumber);
  }

  /** A data record of whole words carries its count, the low 16 bits of
      its address, type 00 and its words in the chosen byte order. */
  lemma DataRecordCarries(p: Payload, littleEndian: bool, offset: nat)
    requires offset < |p.bytes| && |Group(p.bytes, offset)| % 4 == 0
    ensures Carries(DataRecord(p.startAddress, offset, Group(p.bytes, offset), littleEndian), GroupRecord(p, littleEndian, offset))
  {
    DataRecordLayout(p.startAddress, offset, Group(p.bytes, offset), littleEndian);
  }

  /** A data record that follows the bytes placed so far places its own
      bytes at the next addresses. */
  lemma DataRecordStep(rec: Record, start: nat, written: seq<byte>, o: nat, lineNumber: nat)
    requires Follows(rec, start, written, o)
    ensures var st := ScanState(Placed(start, written, o), 0, start / TWO_16);
      ApplyRecord(rec, st, lineNumber) == Running(ScanState(Placed(start, written, o + rec.count), 0, start / TWO_16))
  {
    var st := ScanState(Placed(start, written, o), 0, start / TWO_16);
    var es := DataEntries(st, rec.baseAddress, rec.payload);
    DataEntriesFollow(rec, start, written, o, st);
    PlacedAppend(start, written, o, rec.count, es);
  }

  /** The pairs of a following data record are the next written bytes at
      the next addresses. */
  lemma DataEntriesFollow(rec: Record, start: nat, written: seq<byte>, o: nat, st: ScanState)
    requires Follows(rec, start, written, o)
    requires st.esa == 0 && st.ela == start / TWO_16
    ensures var es := DataEntries(st, rec.baseAddress, rec.payload);
      |es| == rec.count && forall i :: 0 <= i < rec.count ==> es[i] == (start + o + i, written[o + i])
  {
    var es := DataEntries(st, rec.baseAddress, rec.payload);
    forall i | 0 <= i < rec.count
      ensures es[i] == (start + o + i, written[o + i])
    {
      DataAddressSum(st, rec.baseAddress, i);
    }
  }

  /** Placing the next `count` bytes one after the other extends the
      placed pairs. */
  lemma PlacedAppend(start: nat, written: seq<byte>, o: nat, count: nat, es: seq<Entry>)
    requires o + count <= |written| && |es| == count
    requires forall i :: 0 <= i < count ==> es[i] == (start + o + i, written[o + i])
    ensures Placed(start, written, o) + es == Placed(start, written, o + count)
  {
    var before, after := Placed(start, written, o), Placed(start, written, o + count);
    forall i | 0 <= i < o + count
      ensures (before + es)[i] == after[i]
    {
      if i >= o {
        assert es[i - o] == (start + o + (i - o), written[o + (i - o)]);
      }
    }
  }

  /** A line that parses to a record steps as that record says. */
  lemma StepOfRecord(line: string, lineNumber: nat, st: ScanState, rec: Record)
    requires ParseLine(line, lineNumber) == Ok(rec) && |rec.payload| == rec.count
    ensures Step(line, lineNumber, st) == ApplyRecord(rec, st, lineNumber)
  {
  }

  /** A line that parses to a data record following the bytes placed so
      far places the record's bytes. */
  lemma DataLinePlaces(line: string, lineNumber: nat, rec: Record, start: nat, written: seq<byte>, o: nat, before: ScanState, after: ScanState)
    requires ParseLine(line, lineNumber) == Ok(rec) && Follows(rec, start, written, o)
    requires before == ScanState(Placed(start, written, o), 0, start / TWO_16)
    requires o + rec.count <= |written| && after == ScanState(Placed(start, written, o + rec.count), 0, start / TWO_16)
    ensures Step(line, lineNumber, before) == Running(after)
  {
    DataRecordStep(rec, start, written, o, lineNumber);
    StepOfRecord(line, lineNumber, before, rec);
  }

  /** Line `1 + k` of `write_hex` parses to the record of group `k`. */
  lemma DataLineParsed(p: Payload, littleEndian: bool, k: nat)
    requires |p.bytes| % 4 == 0 && k < GroupCount(|p.bytes|)
    ensures 1 + k < |HexLines(p, littleEndian)|
    ensures ParseLine(HexLines(p, littleEndian)[1 + k], 1 + k) == Ok(GroupRecord(p, littleEndian, k * STEP_SIZE))
  {
    HexDataLine(p, littleEndian, k);
    GroupWords(p.bytes, k);
    DataLineAt(HexLines(p, littleEndian), p, littleEndian, k);
  }

  /** Lines whose line `1 + k` is the data line of group `k` parse there
      to that group's record. */
  lemma DataLineAt(lines: seq<string>, p: Payload, littleEndian: bool, k: nat)
    requires k * STEP_SIZE < |p.bytes| && |Group(p.bytes, k * STEP_SIZE)| % 4 == 0
    requires 1 + k < |lines| && lines[1 + k] == DataLine(p, littleEndian, k * STEP_SIZE)
    ensures ParseLine(lines[1 + k], 1 + k) == Ok(GroupRecord(p, littleEndian, k * STEP_SIZE))
  {
    DataLineRecord(p, littleEndian, k * STEP_SIZE, 1 + k);
  }

  /** A line that parses to the record of group `k` moves the scan from
      the state before group `k` to the state after it. */
  lemma GroupPlaces(p: Payload, littleEndian: bool, k: nat, line: string)
    requires FitsOneSegment(p) && k < GroupCount(|p.bytes|)
    requires ParseLine(line, 1 + k) == Ok(GroupRecord(p, littleEndian, k * STEP_SIZE))
    ensures Step(line, 1 + k, PlacedState(p, littleEndian, k)) == Running(PlacedState(p, littleEndian, k + 1))
  {
    var o := k * STEP_SIZE;
    DataGroup(p, littleEndian, k);
    DataLinePlaces(line, 1 + k, GroupRecord(p, littleEndian, o), p.startAddress, Written(p.bytes, littleEndian), o,
      PlacedState(p, littleEndian, k), PlacedState(p, littleEndian, k + 1));
  }

  /** Line `1 + k` of `write_hex` moves the scan from the state before
      group `k` to the state after it. */
  lemma DataLineStep(p: Payload, littleEndian: bool, k: nat)
    requires FitsOneSegment(p) && k < GroupCount(|p.bytes|)
    ensures 1 + k < |HexLines(p, littleEndian)|
    ensures Step(HexLines(p, littleEndian)[1 + k], 1 + k, PlacedState(p, littleEndian, k))
         == Running(PlacedState(p, littleEndian, k + 1))
  {
    DataLineParsed(p, littleEndian, k);
    GroupPlaces(p, littleEndian, k, HexLines(p, littleEndian)[1 + k]);
  }

  /** The last line of `write_hex` stops the scan once every group is
      read. */
  lemma EndLineStep(p: Payload, littleEndian: bool)
    requires FitsOneSegment(p)
    ensures var last := 1 + GroupCount(|p.bytes|);
      && last < |HexLines(p, littleEndian)|
      && Step(HexLines(p, littleEndian)[last], last, PlacedState(p, littleEndian, GroupCount(|p.bytes|)))
         == Stopped(PlacedState(p, littleEndian, GroupCount(|p.bytes|)))
  {
    HexLastLine(p, littleEndian);
    EndOfFileLineStep(1 + GroupCount(|p.bytes|), PlacedState(p, littleEndian, GroupCount(|p.bytes|)));
  }

  /** The states of the scan before each group and after the last. */
  function PlacedStates(p: Payload, littleEndian: bool): (states: seq<ScanState>)
    requires FitsOneSegment(p)
    ensures |states| == GroupCount(|p.bytes|) + 1
    ensures forall k :: 0 <= k < |states| ==> states[k] == PlacedState(p, littleEndian, k)
  {
    seq(GroupCount(|p.bytes|) + 1, k requires 0 <= k <= GroupCount(|p.bytes|) => PlacedState(p, littleEndian, k))
  }

  /** From the second line on, the scan reads every data record, each
      moving it from the state before its group to the state after it, and
      stops at the end-of-file record with every written byte placed. */
  lemma ScanDataLines(p: Payload, littleEndian: bool)
    requires FitsOneSegment(p)
    ensures ScanLines(HexLines(p, littleEndian), 1, PlacedState(p, littleEndian, 0))
         == Stopped(PlacedState(p, littleEndian, GroupCount(|p.bytes|)))
  {
    EndLineStep(p, littleEndian);
    var states := PlacedStates(p, littleEndian);
    var n := GroupCount(|p.bytes|);
    forall k | 0 <= k < n
      ensures Moves(HexLines(p, littleEndian), 1, states, k)
    {
      DataLineStep(p, littleEndian, k);
    }
    ScanStates(HexLines(p, littleEndian), 1, n, states, Stopped(states[n]));
  }

  /** Bytes placed at consecutive addresses are sorted with distinct
      addresses. */
  lemma PlacedIncreasing(start: nat, written: seq<byte>)
    ensures var es := Placed(start, written, |written|);
      StrictlyIncreasing(es) && Sorted(es)
  {
  }

  /** Folded, bytes placed at consecutive addresses give back the bytes. */
  lemma PlacedDense(start: nat, written: seq<byte>, fill: byte)
    requires |written| > 0
    ensures GapFill(Placed(start, written, |written|), fill) == written
  {
    var es := Placed(start, written, |written|);
    PlacedIncreasing(start, written);
    DenseLayout(es, fill);
    var raw := GapFill(es, fill);
    forall j | 0 <= j < |written| ensures raw[j] == written[j] {
      assert es[j].0 - start == j;
    }
  }

  /** Bytes placed at consecutive addresses assemble into exactly those
      bytes at that start address. */
  lemma AssemblePlaced(start: nat, written: seq<byte>, littleEndian: bool, fill: byte)
    requires |written| > 0 && |written| % 4 == 0
    ensures Assemble(Placed(start, written, |written|), littleEndian, fill)
         == Ok(Payload(start, Written(written, littleEndian)))
  {
    var es := Placed(start, written, |written|);
    PlacedIncreasing(start, written);
    SortSorted(es);
    PlacedDense(start, written, fill);
  }

  /** `from_hex(write_hex(p))` with the same byte order gives back `p`. */
  lemma HexImageOfHexLines(p: Payload, littleEndian: bool, fill: byte)
    requires FitsOneSegment(p)
    ensures HexImage(HexLines(p, littleEndian), littleEndian, fill) == Ok(p)
  {
    var lines := HexLines(p, littleEndian);
    var start := p.startAddress;
    var w := Written(p.bytes, littleEndian);
    HexFirstLine(p, littleEndian);
    ExtendedAddressStep(start);
    assert PlacedState(p, littleEndian, 0) == ScanState([], 0, start / TWO_16);
    ScanAdvance(lines, 0, INITIAL, Running(PlacedState(p, littleEndian, 0)));
    ScanDataLines(p, littleEndian);
    WordPayloadWritten(p.bytes, 0, 0, littleEndian);
    assert PlacedState(p, littleEndian, GroupCount(|p.bytes|)).memoryMap == Placed(start, w, |w|);
    AssemblePlaced(start, w, littleEndian, fill);
    if littleEndian {
      ReverseEachWordInvolution(p.bytes);
    }
  }
}
